/** The protocol buffer of nutils/bf.h and nutils/bf.c: a fixed memory block and
    four positions that obey start <= get <= put <= end.  Positions are offsets
    from the first byte of the block. */
module Bf {

  type byte = b: int | 0 <= b < 256

  const CR: byte := 13
  const LF: byte := 10
  const CRLF: seq<byte> := [CR, LF]

  /** What BF_get_line_ext answers for a content: a line of k bytes, no line, or
      `Overrun` when the search reads bytes at or behind the put position (its
      second and later searches keep the length of the first one). */
  datatype Find = At(k: nat) | NoLine | Overrun

  /** s has a line end at position k. */
  predicate CrlfAt(s: seq<byte>, k: nat) {
    k + 2 <= |s| && s[k] == CR && s[k + 1] == LF
  }

  /** The first CR at or after `from`, or the length when there is none. */
  function FirstCr(c: seq<byte>, from: nat): (k: nat)
    requires from <= |c|
    ensures from <= k <= |c|
    decreases |c| - from
  {
    if from == |c| || c[from] == CR then from else FirstCr(c, from + 1)
  }

  lemma {:induction false} FirstCrMeaning(c: seq<byte>, from: nat)
    requires from <= |c|
    ensures FirstCr(c, from) < |c| ==> c[FirstCr(c, from)] == CR
    ensures forall i :: from <= i < FirstCr(c, from) ==> c[i] != CR
    decreases |c| - from
  {
    if from < |c| && c[from] != CR {
      FirstCrMeaning(c, from + 1);
    }
  }

  function FindFrom(c: seq<byte>, pos: nat): Find
    requires pos < |c| && 2 <= |c|
    decreases |c| - pos
  {
    var nsearch := |c| - 1;
    var next := FirstCr(c, pos);
    if next == |c| || next - pos >= nsearch then
      if pos + nsearch <= |c| then NoLine else Overrun
    else if next + 1 == |c| then Overrun
    else if c[next + 1] == LF then At(next)
    else FindFrom(c, next + 1)
  }

  function FindLine(c: seq<byte>): Find {
    if |c| < 2 then NoLine else FindFrom(c, 0)
  }

  lemma {:induction false} FindFromMeaning(c: seq<byte>, pos: nat)
    requires pos < |c| && 2 <= |c|
    requires forall k: nat :: k < pos ==> !CrlfAt(c, k)
    ensures FindFrom(c, pos).At? <==> exists k: nat :: CrlfAt(c, k)
    ensures FindFrom(c, pos).At? ==>
              var k := FindFrom(c, pos).k; CrlfAt(c, k) && forall j: nat :: j < k ==> !CrlfAt(c, j)
    ensures FindFrom(c, pos).Overrun? <==> (forall k: nat :: !CrlfAt(c, k)) && Strays(c, pos)
    decreases |c| - pos
  {
    var next := FirstCr(c, pos);
    FirstCrMeaning(c, pos);
    if next < |c| && next - pos < |c| - 1 && next + 1 < |c| {
      if c[next + 1] == LF {
        assert CrlfAt(c, next);
      } else {
        FindFromMeaning(c, next + 1);
      }
    }
  }

  /** A content without a line for which a search from pos reads on behind its end: the
      search starts at or comes to a position above 1, or it comes to a CR at the end. */
  predicate Strays(c: seq<byte>, pos: nat) {
    || pos >= 2
    || (exists k :: 1 <= k < |c| - 1 && c[k] == CR)
    || (|c| >= 2 && (pos == 1 || c[0] == CR) && c[|c| - 1] == CR)
  }

  /** The search finds a line exactly when there is one, and then the first one; it
      runs past a content without a line exactly when there is a CR other than the
      first and the last byte, or both of these are CR. */
  lemma FindLineMeaning(c: seq<byte>)
    ensures FindLine(c).At? <==> exists k: nat :: CrlfAt(c, k)
    ensures FindLine(c).At? ==> var k := FindLine(c).k; CrlfAt(c, k) && forall j: nat :: j < k ==> !CrlfAt(c, j)
    ensures FindLine(c).Overrun? <==> (forall k: nat :: !CrlfAt(c, k)) && Strays(c, 0)
  {
    if 2 <= |c| {
      FindFromMeaning(c, 0);
    }
  }

  /** What is left of a block b when the line in front of position get + k is taken. */
  lemma CutLine(b: seq<byte>, get: nat, put: nat, k: nat)
    requires get + k + 2 <= put <= |b|
    ensures b[get + k := 0][get..get + k] == b[get..put][..k]
    ensures b[get + k := 0][get + k + 2..put] == b[get..put][k + 2..]
  {
  }

  /** A shorter range of a block. */
  lemma SubRange(b: seq<byte>, from: nat, to: nat, i: nat, j: nat)
    requires from <= i <= j <= to <= |b|
    ensures b[i..j] == b[from..to][i - from..j - from]
  {
    forall k | 0 <= k < j - i ensures b[i..j][k] == b[from..to][i - from..j - from][k] {
      assert b[from..to][i - from + k] == b[i + k];
    }
  }

  /** A range that holds the bytes of a sequence is that sequence. */
  lemma RangeIs(b: seq<byte>, from: nat, to: nat, c: seq<byte>)
    requires from <= to <= |b| && |c| == to - from
    requires forall i :: 0 <= i < |c| ==> b[from + i] == c[i]
    ensures b[from..to] == c
  {
  }

  /** A number of w bytes in network order. */
  function Net(w: nat, v: nat): (s: seq<byte>)
    ensures |s| == w
  {
    if w == 0 then [] else Net(w - 1, v / 256) + [v % 256]
  }

  function Host(s: seq<byte>): (v: nat) {
    if s == [] then 0 else Host(s[..|s| - 1]) * 256 + s[|s| - 1]
  }

  function Pow256(w: nat): (p: nat)
    ensures p > 0
  {
    if w == 0 then 1 else 256 * Pow256(w - 1)
  }

  /** The most significant byte comes first. */
  lemma {:induction false} NetDigits(w: nat, v: nat, i: nat)
    requires i < w
    ensures Net(w, v)[i] == v / Pow256(w - 1 - i) % 256
  {
    if i < w - 1 {
      NetDigits(w - 1, v / 256, i);
      DivTwice(v, Pow256(w - 2 - i));
    }
  }

  lemma Scale(d: nat, a: nat, b: nat)
    requires a <= b
    ensures d * a <= d * b
  {
  }

  lemma Quotient(v: nat, d: nat, q: nat, r: nat)
    requires v == d * q + r && r < d
    ensures v / d == q
  {
    var k := v / d;
    assert d * k <= v < d * (k + 1);
    assert v < d * (q + 1);
    if k < q {
      Scale(d, k + 1, q);
    } else if q < k {
      Scale(d, q + 1, k);
    }
  }

  lemma DivTwice(v: nat, p: nat)
    requires p > 0
    ensures v / 256 / p == v / (256 * p)
  {
    var q, r := v / 256 / p, v / 256 % p;
    assert v == (256 * p) * q + (256 * r + v % 256);
    Quotient(v, 256 * p, q, 256 * r + v % 256);
  }

  /** What was put is got back, if the value fits the type, and only then. */
  lemma {:induction false} HostNet(w: nat, v: nat)
    ensures Host(Net(w, v)) == v <==> v < Pow256(w)
    ensures Host(Net(w, v)) < Pow256(w)
    decreases w
  {
    if w > 0 {
      var s := Net(w, v);
      assert s[..|s| - 1] == Net(w - 1, v / 256);
      HostNet(w - 1, v / 256);
    }
  }

  /** What is got is what was put. */
  lemma {:induction false} NetHost(s: seq<byte>)
    ensures Net(|s|, Host(s)) == s && Host(s) < Pow256(|s|)
  {
    if s != [] {
      NetHost(s[..|s| - 1]);
    }
  }

  class BF {
    const buf: array<byte>
    var start: nat
    var get: nat
    var put: nat
    var end: nat

    ghost predicate Valid()
      reads this
    {
      start <= get <= put <= end <= buf.Length
    }

    /** The bytes that were put and not yet taken. */
    ghost function Content(): (c: seq<byte>)
      requires Valid()
      reads this, buf
    {
      buf[get..put]
    }

    constructor (size: nat)
      ensures Valid() && fresh(buf) && buf.Length == size
      ensures start == get == put == 0 && end == size
    {
      buf := new byte[size];
      start, get, put, end := 0, 0, 0, size;
    }

    function GetSize(): (n: nat)
      requires Valid()
      reads this
    {
      put - get
    }

    predicate IsFull()
      reads this
    {
      get == start && end == put
    }

    method PutMode()
      requires Valid()
      modifies this`get, this`put
      ensures Valid() && get == put == start
    {
      get, put := start, start;
    }

    method SetStart(pos: nat) returns (rc: int)
      requires Valid()
      modifies this`start, this`get, this`put, this`end
      ensures Valid()
      ensures rc == if pos > buf.Length then -1 else 0
      ensures rc == -1 ==> unchanged(this)
      ensures rc == 0 ==> start == pos && end == if old(end) < pos then pos else old(end)
      ensures rc == 0 ==> Content() == old(Content())[if pos <= old(get) then 0
                                                      else if pos <= old(put) then pos - old(get)
                                                      else old(put - get)..]
      ensures rc == 0 ==> get == if old(get) < pos then pos else old(get)
      ensures rc == 0 ==> put == if old(put) < pos then pos else old(put)
    {
      if pos > buf.Length {
        return -1;
      }
      start := pos;
      if start > get {
        get := start;
      }
      if start > put {
        put := start;
      }
      if start > end {
        end := start;
      }
      if get <= old(put) {
        SubRange(buf[..], old(get), old(put), get, put);
      }
      return 0;
    }

    /** The end of the effective range; content behind it is cut off. */
    method SetEnd(pos: nat) returns (rc: int)
      requires Valid()
      modifies this`start, this`get, this`put, this`end
      ensures Valid()
      ensures rc == if pos > buf.Length then -1 else 0
      ensures rc == -1 ==> unchanged(this)
      ensures rc == 0 ==> end == pos && start == if pos < old(start) then pos else old(start)
      ensures rc == 0 ==> Content() == old(Content())[..if pos <= old(get) then 0
                                                        else if pos <= old(put) then pos - old(get)
                                                        else old(put - get)]
      ensures rc == 0 ==> get == if pos < old(get) then pos else old(get)
      ensures rc == 0 ==> put == if pos < old(put) then pos else old(put)
    {
      if pos > buf.Length {
        return -1;
      }
      end := pos;
      if end < get {
        get := end;
      }
      if end < put {
        put := end;
      }
      if end < start {
        start := end;
      }
      if old(get) <= put {
        SubRange(buf[..], old(get), old(put), get, put);
      }
      return 0;
    }

    /** The get position, counted from the start; content in front of it is dropped. */
    method SetGet(pos: nat) returns (rc: int)
      requires Valid()
      modifies this`get, this`put
      ensures Valid()
      ensures rc == if pos > end - start then -1 else 0
      ensures rc == -1 ==> unchanged(this)
      ensures rc == 0 ==> get == start + pos && put == if old(put) < get then get else old(put)
    {
      if pos > end - start {
        return -1;
      }
      get := start + pos;
      if get > put {
        put := get;
      }
      return 0;
    }

    /** The put position, counted from the start; content behind it is dropped. */
    method SetPut(pos: nat) returns (rc: int)
      requires Valid()
      modifies this`get, this`put
      ensures Valid()
      ensures rc == if pos > end - start then -1 else 0
      ensures rc == -1 ==> unchanged(this)
      ensures rc == 0 ==> put == start + pos && get == if put < old(get) then put else old(get)
    {
      if pos > end - start {
        return -1;
      }
      put := start + pos;
      if put < get {
        get := put;
      }
      return 0;
    }

    /** The whole effective range becomes content. */
    method GetMode()
      requires Valid()
      modifies this`get, this`put
      ensures Valid() && get == start && put == end && Content() == buf[start..end]
    {
      get, put := start, end;
    }

    /** BF_put of an unsigned type of w bytes. */
    method PutUint(w: nat, val: nat) returns (rc: int)
      requires Valid()
      modifies this`put, buf
      ensures Valid()
      ensures rc == if old(end - put) < w then -1 else 0
      ensures rc == 0 ==> Content() == old(Content()) + Net(w, val)
      ensures rc == -1 ==> put == old(put) && buf[..] == old(buf[..])
    {
      rc := Putn(Net(w, val));
    }

    /** BF_get of an unsigned type of w bytes. */
    method GetUint(w: nat) returns (rc: int, val: nat)
      requires Valid()
      modifies this`get
      ensures Valid()
      ensures rc == if old(put - get) < w then -1 else 0
      ensures rc == 0 ==> old(Content()) == Net(w, val) + Content() && val < Pow256(w)
      ensures rc == -1 ==> get == old(get)
    {
      if put - get < w {
        return -1, 0;
      }
      ghost var c := Content();
      val := Host(buf[get..get + w]);
      NetHost(buf[get..get + w]);
      assert c == buf[get..get + w] + c[w..];
      get := get + w;
      assert Content() == c[w..];
      rc := 0;
    }

    /** Appends data when it fits and refuses it whole when it does not. */
    method Putn(data: seq<byte>) returns (rc: int)
      requires Valid()
      modifies this`put, buf
      ensures Valid()
      ensures rc == if old(end - put) < |data| then -1 else 0
      ensures rc == 0 ==> put == old(put) + |data| && Content() == old(Content()) + data
      ensures rc == -1 ==> put == old(put) && buf[..] == old(buf[..])
      ensures buf[..get] == old(buf[..get])
      ensures forall i :: put <= i < buf.Length ==> buf[i] == old(buf[i])
    {
      if end - put < |data| {
        return -1;
      }
      forall i | 0 <= i < |data| {
        buf[put + i] := data[i];
      }
      put := put + |data|;
      return 0;
    }

    /** Moves the content to the start of the effective range; 0 when bytes moved. */
    method Compact() returns (rc: int)
      requires Valid()
      modifies this`get, this`put, buf
      ensures Valid() && get == start
      ensures Content() == old(Content())
      ensures forall i :: 0 <= i < buf.Length && !(start <= i < put) ==> buf[i] == old(buf[i])
      ensures rc == if old(get == put || get == start) then 1 else 0
    {
      if get == put {
        get, put := start, start;
        return 1;
      }
      if get != start {
        var bs := put - get;
        ghost var c := Content();
        forall i | 0 <= i < bs {
          buf[start + i] := buf[get + i];
        }
        get := start;
        put := start + bs;
        forall i | 0 <= i < |c| ensures buf[..][start + i] == c[i] {
          assert buf[start + i] == old(buf[get + i]);
        }
        RangeIs(buf[..], get, put, c);
        assert buf[get..put] == buf[..][get..put];
        return 0;
      }
      return 1;
    }

    /** The byte scan behind memchr over buf[from..to]. */
    method FindCr(from: nat, to: nat) returns (found: bool, at: nat)
      requires Valid() && get <= from <= to <= put
      ensures var k := FirstCr(Content(), from - get);
              found == (k < to - get) && at == if found then get + k else to
    {
      at := from;
      while at < to
        invariant from <= at <= to
        invariant FirstCr(Content(), from - get) == FirstCr(Content(), at - get)
      {
        if buf[at] == CR {
          return true, at;
        }
        at := at + 1;
      }
      return false, at;
    }

    /** The search loop of BF_get_line_ext. */
    method SearchLine() returns (r: Find)
      requires Valid() && put - get >= 2
      ensures r == FindFrom(Content(), 0)
    {
      hide FirstCr;
      ghost var c := Content();
      var nsearch := put - get - 1;
      var pos := get;
      while pos < put
        invariant get <= pos < put
        invariant FindFrom(c, 0) == FindFrom(c, pos - get)
      {
        var found, next := FindCr(pos, if pos + nsearch < put then pos + nsearch else put);
        if !found {
          return if pos + nsearch <= put then NoLine else Overrun;
        }
        if next + 1 == put {
          return Overrun;
        }
        assert buf[next + 1] == c[next + 1 - get];
        if buf[next + 1] == LF {
          return At(next - get);
        }
        pos := next + 1;
      }
    }

    /** Takes the first line that ends in CR LF and overwrites its CR by a zero
        byte; at is the offset of the line. */
    method GetLineExt() returns (r: Find, at: nat)
      requires Valid()
      modifies this`get, buf
      ensures Valid()
      ensures r == FindLine(old(Content())) && at == old(get)
      ensures r.At? ==>
                && CrlfAt(old(Content()), r.k)
                && get == at + r.k + 2
                && buf[at + r.k] == 0
                && buf[at..at + r.k] == old(Content())[..r.k]
                && Content() == old(Content())[r.k + 2..]
      ensures !r.At? ==> get == old(get) && Content() == old(Content())
    {
      hide FindFrom, FirstCr, Strays;
      at := get;
      if put - get < 2 {
        return NoLine, at;
      }
      r := SearchLine();
      FindLineMeaning(Content());
      if r.At? {
        CutLine(buf[..], at, put, r.k);
        buf[at + r.k] := 0;
        get := at + r.k + 2;
        assert buf[..] == old(buf[..])[at + r.k := 0];
        assert buf[at..at + r.k] == buf[..][at..at + r.k];
        assert buf[get..put] == buf[..][get..put];
      }
    }
  }
}
