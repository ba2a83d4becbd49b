/** The reassembly of IP datagrams in iptools/fragments.c. */
module Fragments {
  import opened Seqs

  type Byte = x: int | 0 <= x < 256

  /** IP_HDR_LEN: the low half of the first byte counts words of four bytes. */
  function HdrLen(data: seq<Byte>): nat
    requires data != []
  {
    data[0] % 16 * 4
  }

  /** A header of at least the fixed size, within the packet, and a length of 16 bits. */
  predicate Packet(data: seq<Byte>) {
    data != [] && 20 <= HdrLen(data) <= |data| < 0x10000
  }

  datatype Fragment = Fragment(offset: nat, length: nat, data: seq<Byte>) {
    predicate Valid() {
      Packet(data) && offset < 0x10000 && length == |data| - HdrLen(data)
    }

    function Payload(): (r: seq<Byte>)
      requires Valid()
      ensures |r| == length
    {
      data[HdrLen(data)..]
    }
  }

  predicate AllValid(fs: seq<Fragment>) {
    forall i :: 0 <= i < |fs| ==> fs[i].Valid()
  }

  /** combine_fragments takes a payload from behind a header that is as long as the one
      of the fragment it saw before, which is the last one for the first.  Each copy
      ends inside of its fragment. */
  ghost predicate Inside(fs: seq<Fragment>)
    requires AllValid(fs)
  {
    && (fs != [] ==> HdrLen(fs[|fs| - 1].data) <= HdrLen(fs[0].data))
    && (forall i, j :: 0 <= i < j < |fs| && j == i + 1 ==> HdrLen(fs[i].data) <= HdrLen(fs[j].data))
  }

  /** That is so exactly when all headers have one length. */
  lemma InsideExactly(fs: seq<Fragment>)
    requires AllValid(fs)
    ensures Inside(fs) <==> forall i :: 0 <= i < |fs| ==> HdrLen(fs[i].data) == HdrLen(fs[0].data)
  {
    if Inside(fs) {
      forall i | 0 <= i < |fs| ensures HdrLen(fs[i].data) == HdrLen(fs[0].data) {
        Rising(fs, 0, i);
        Rising(fs, i, |fs| - 1);
      }
    }
  }

  lemma {:induction false} Rising(fs: seq<Fragment>, i: nat, j: nat)
    requires AllValid(fs) && Inside(fs) && i <= j < |fs|
    ensures HdrLen(fs[i].data) <= HdrLen(fs[j].data)
    decreases j - i
  {
    if i < j {
      Rising(fs, i + 1, j);
    }
  }

  predicate Sorted(fs: seq<Fragment>) {
    forall i, j :: 0 <= i < j < |fs| ==> fs[i].offset <= fs[j].offset
  }

  /** The first fragment with a greater offset, or the end. */
  function Position(fs: seq<Fragment>, offset: nat): (p: nat)
    ensures p <= |fs| && (forall i :: 0 <= i < p ==> fs[i].offset <= offset) && (p < |fs| ==> fs[p].offset > offset)
  {
    if fs == [] || fs[0].offset > offset then 0 else 1 + Position(fs[1..], offset)
  }

  function Inserted(fs: seq<Fragment>, f: Fragment): seq<Fragment> {
    var p := Position(fs, f.offset);
    fs[..p] + [f] + fs[p..]
  }

  /** A fragment that starts inside another one. */
  predicate Overlaps(fs: seq<Fragment>, offset: nat) {
    exists i :: 0 <= i < |fs| && fs[i].offset < offset < fs[i].offset + fs[i].length
  }

  /** Every fragment starts where the one before it ends, in 16 bits. */
  predicate Contiguous(fs: seq<Fragment>, from: nat) {
    fs == [] || (fs[0].offset == from && Contiguous(fs[1..], (from + fs[0].length) % 0x10000))
  }

  function Payloads(fs: seq<Fragment>): (r: seq<Byte>)
    requires forall i :: 0 <= i < |fs| ==> fs[i].Valid()
  {
    if fs == [] then [] else fs[0].Payload() + Payloads(fs[1..])
  }

  /** The header of a datagram that is not a fragment: total length, offset and flags
      (section 3.1 of RFC 791). */
  function Whole(packet: seq<Byte>): (r: seq<Byte>)
    requires 8 <= |packet| < 0x10000
    ensures |r| == |packet|
  {
    packet[2 := |packet| / 256][3 := |packet| % 256][6 := 0][7 := 0]
  }

  /** What is set in a header, and what stays: the total length in network order, no flags
      and no offset, and all other bytes. */
  lemma WholeMeaning(packet: seq<Byte>)
    requires 8 <= |packet| < 0x10000
    ensures var r := Whole(packet);
            && (r[2] as int) * 256 + r[3] as int == |packet| && r[6] == 0 && r[7] == 0
            && forall i :: 0 <= i < |packet| && i != 2 && i != 3 && i != 6 && i != 7 ==> r[i] == packet[i]
  {
  }

  /** The first byte of a header holds the version and the number of its words. */
  lemma HeaderByte(version: nat, words: nat, rest: seq<Byte>)
    requires version < 16 && words < 16
    ensures HdrLen([16 * version + words] + rest) == 4 * words
  {
  }

  /** f holds the byte at position x of its datagram. */
  predicate Covers(f: Fragment, x: int) {
    f.offset <= x < f.offset + f.length
  }

  /** A new fragment is refused exactly when some fragment holds its first byte and the
      byte before that. */
  lemma OverlapsMeans(fs: seq<Fragment>, offset: nat)
    ensures Overlaps(fs, offset) <==> exists f :: f in fs && Covers(f, offset - 1) && Covers(f, offset)
  {
    if Overlaps(fs, offset) {
      var i :| 0 <= i < |fs| && fs[i].offset < offset < fs[i].offset + fs[i].length;
      assert fs[i] in fs && Covers(fs[i], offset - 1) && Covers(fs[i], offset);
    }
    if f :| f in fs && Covers(f, offset - 1) && Covers(f, offset) {
      var i :| 0 <= i < |fs| && fs[i] == f;
    }
  }

  lemma ModShift(a: nat, b: nat)
    ensures (a % 0x10000 + b) % 0x10000 == (a + b) % 0x10000
  {
  }

  /** Fragment i starts, in 16 bits, at the sum of the lengths in front of it. */
  ghost predicate StartsAtSum(fs: seq<Fragment>, from: nat, i: nat)
    requires AllValid(fs) && i < |fs|
  {
    fs[i].offset == (from + |Payloads(fs[..i])|) % 0x10000
  }

  lemma SumShift(fs: seq<Fragment>, from: nat, i: nat)
    requires AllValid(fs) && 0 < i < |fs|
    ensures AllValid(fs[1..])
    ensures StartsAtSum(fs, from, i) <==> StartsAtSum(fs[1..], (from + fs[0].length) % 0x10000, i - 1)
  {
    hide HdrLen, Payloads;
    var rest := fs[1..];
    assert fs[..i][0] == fs[0] && fs[..i][1..] == rest[..i - 1];
    FirstPayload(fs[..i]);
    ModShift(from + fs[0].length, |Payloads(rest[..i - 1])|);
  }

  /** Fragments are contiguous exactly when each does so. */
  lemma {:induction false} ContiguousMeans(fs: seq<Fragment>, from: nat)
    requires AllValid(fs) && from < 0x10000
    ensures Contiguous(fs, from) <==> forall i :: 0 <= i < |fs| ==> StartsAtSum(fs, from, i)
  {
    if fs != [] {
      var rest, next := fs[1..], (from + fs[0].length) % 0x10000;
      ContiguousMeans(rest, next);
      NoPayloads(fs[..0]);
      hide StartsAtSum;
      assert StartsAtSum(fs, from, 0) <==> fs[0].offset == from by {
        FirstStart(fs, from);
      }
      forall i: nat | 0 < i < |fs| ensures StartsAtSum(fs, from, i) <==> StartsAtSum(rest, next, i - 1) {
        SumShift(fs, from, i);
      }
      assert forall i :: 0 <= i < |rest| ==> (StartsAtSum(rest, next, i) <==> StartsAtSum(fs, from, i + 1));
    }
  }

  lemma FirstStart(fs: seq<Fragment>, from: nat)
    requires AllValid(fs) && from < 0x10000 && fs != []
    ensures StartsAtSum(fs, from, 0) <==> fs[0].offset == from
  {
    NoPayloads(fs[..0]);
  }

  /** The first fragment with the payloads of the others behind it; nothing when that
      is too long. */
  function Combined(fs: seq<Fragment>): (r: seq<Byte>)
    requires fs != [] && forall i :: 0 <= i < |fs| ==> fs[i].Valid()
  {
    assert fs[0].Valid();
    var packet := fs[0].data + Payloads(fs[1..]);
    if |packet| > 0xFFFF then [] else Whole(packet)
  }

  lemma {:induction false} PayloadsAppend(fs: seq<Fragment>, f: Fragment)
    requires (forall i :: 0 <= i < |fs| ==> fs[i].Valid()) && f.Valid()
    ensures Payloads(fs + [f]) == Payloads(fs) + f.Payload()
  {
    if fs == [] {
      assert fs + [f] == [f];
      assert Payloads([f][1..]) == [];
    } else {
      assert (fs + [f])[1..] == fs[1..] + [f];
      PayloadsAppend(fs[1..], f);
    }
  }

  /** memcpy. */
  method Memcpy(to: array<Byte>, pos: nat, from: seq<Byte>)
    requires pos + |from| <= to.Length
    modifies to
    ensures to[..] == old(to[..pos]) + from + old(to[pos + |from|..])
  {
    var i := 0;
    while i < |from|
      invariant i <= |from| && to[..pos] == old(to[..pos]) && to[pos..pos + i] == from[..i]
      invariant to[pos + |from|..] == old(to[pos + |from|..])
    {
      to[pos + i] := from[i];
      i := i + 1;
    }
    assert to[..] == to[..pos] + to[pos..pos + i] + to[pos + i..];
  }

  class PacketInfo {
    var fragments: seq<Fragment>
    var hasLast: bool

    constructor ()
      ensures fragments == [] && !hasLast
    {
      fragments, hasLast := [], false;
    }

    /** has_all_fragments. */
    method HasAllFragments() returns (r: bool)
      ensures r == Contiguous(fragments, 0)
    {
      var pos: nat := 0;
      var i := 0;
      while i < |fragments|
        invariant 0 <= i <= |fragments| && Contiguous(fragments, 0) == Contiguous(fragments[i..], pos)
      {
        if pos != fragments[i].offset {
          return false;
        }
        pos := (pos + fragments[i].length) % 0x10000;
        assert fragments[i..][1..] == fragments[i + 1..];
        i := i + 1;
      }
      return true;
    }

    /** The first loop of combine_fragments: the length of the datagram, and the data
        of the last fragment. */
    method TotalLength() returns (length: nat, data: seq<Byte>)
      requires fragments != [] && AllValid(fragments)
      ensures length == |fragments[0].data + Payloads(fragments[1..])| && data == fragments[|fragments| - 1].data
    {
      hide Payloads;
      length, data := 0, [];
      var i := 0;
      NoPayloads(fragments[..0]);
      while i < |fragments|
        invariant 0 <= i <= |fragments|
        invariant length == |Payloads(fragments[..i])| + if i > 0 then HdrLen(fragments[0].data) else 0
        invariant data == if i > 0 then fragments[i - 1].data else []
      {
        assert fragments[..i + 1] == fragments[..i] + [fragments[i]];
        PayloadsAppend(fragments[..i], fragments[i]);
        data := fragments[i].data;
        length := length + fragments[i].length;
        if i == 0 {
          length := length + HdrLen(data);
        }
        i := i + 1;
      }
      assert fragments[..i] == fragments;
      FirstPayload(fragments);
    }

    /** combine_fragments.  Its loops leave data at the last fragment they saw, and the
        header of that one tells where the payload of the next begins. */
    method CombineFragments() returns (r: seq<Byte>)
      requires fragments != [] && AllValid(fragments) && Inside(fragments)
      ensures r == Combined(fragments)
      ensures var packet := fragments[0].data + Payloads(fragments[1..]);
              if |packet| > 0xFFFF then r == []
              else
                && |r| == |packet| && (r[2] as int) * 256 + r[3] as int == |packet| && r[6] == 0 && r[7] == 0
                && forall i :: 0 <= i < |packet| && i != 2 && i != 3 && i != 6 && i != 7 ==> r[i] == packet[i]
    {
      hide Payloads, Whole, Inside;
      InsideExactly(fragments);
      ghost var h := HdrLen(fragments[0].data);
      var length, data := TotalLength();
      if length > 0xFFFF {
        return [];
      }
      var ret := new Byte[length];
      ghost var first, rest := fragments[0].data, fragments[1..];
      NoPayloads(rest[..0]);
      var pos: nat := 0;
      var i := 0;
      while i < |fragments|
        invariant 0 <= i <= |fragments| && pos <= length && data != [] && HdrLen(data) == h
        invariant if i == 0 then pos == 0 else ret[..pos] == first + Payloads(rest[..i - 1])
      {
        var headerLen := HdrLen(data);
        data := fragments[i].data;
        if i > 0 {
          NextPayload(rest, i - 1);
        }
        pos := CopyPiece(ret, pos, fragments[i], headerLen, i == 0);
        i := i + 1;
      }
      assert rest[..i - 1] == rest;
      assert ret[..] == first + Payloads(rest);
      SetHeader(ret);
      r := ret[..];
      CombinedIs(fragments, first + Payloads(rest));
      WholeMeaning(first + Payloads(rest));
    }

    /** One turn of the second loop: the first fragment goes with its header. */
    method CopyPiece(ret: array<Byte>, pos: nat, f: Fragment, headerLen: nat, isFirst: bool) returns (after: nat)
      requires f.Valid() && headerLen == HdrLen(f.data)
      requires pos + f.length + (if isFirst then headerLen else 0) <= ret.Length
      modifies ret
      ensures after == pos + f.length + (if isFirst then headerLen else 0)
      ensures ret[..after] == old(ret[..pos]) + if isFirst then f.data else f.Payload()
    {
      if isFirst {
        assert f.data[..f.length + headerLen] == f.data;
        Memcpy(ret, pos, f.data[..f.length + headerLen]);
        after := pos + f.length + headerLen;
      } else {
        assert f.data[headerLen..headerLen + f.length] == f.Payload();
        Memcpy(ret, pos, f.data[headerLen..headerLen + f.length]);
        after := pos + f.length;
      }
    }

    /** The total length is set, flags and offset are cleared. */
    method SetHeader(ip: array<Byte>)
      requires 20 <= ip.Length < 0x10000
      modifies ip
      ensures ip[..] == Whole(old(ip[..]))
    {
      ip[2], ip[3] := ip.Length / 256, ip.Length % 256;
      ip[6], ip[7] := 0, 0;
    }

    /** add_fragment of a packet: 1 when the datagram is complete, -1 when the fragment
        starts inside another one or the datagram is too long. */
    method AddFragment(offset: nat, packet: seq<Byte>, isLast: bool) returns (rc: int, datagram: seq<Byte>)
      requires Packet(packet) && offset < 0x10000 && AllValid(fragments) && Sorted(fragments)
      requires var fs := Inserted(fragments, Fragment(offset, |packet| - HdrLen(packet), packet));
               (hasLast || isLast) && !Overlaps(fragments, offset) && Contiguous(fs, 0) ==> AllValid(fs) && Inside(fs)
      modifies this
      ensures AllValid(fragments) && Sorted(fragments)
      ensures Overlaps(old(fragments), offset) ==> rc == -1 && fragments == old(fragments) && hasLast == old(hasLast)
      ensures !Overlaps(old(fragments), offset) ==>
                && fragments == Inserted(old(fragments), Fragment(offset, |packet| - HdrLen(packet), packet))
                && multiset(fragments) == multiset(old(fragments))
                                          + multiset{Fragment(offset, |packet| - HdrLen(packet), packet)}
                && hasLast == (old(hasLast) || isLast)
                && if hasLast && Contiguous(fragments, 0)
                   then datagram == Combined(fragments) && rc == if datagram == [] then -1 else 1
                   else rc == 0
    {
      datagram := [];
      var fragment := Fragment(offset, |packet| - HdrLen(packet), packet);
      var i := 0;
      while i < |fragments|
        invariant 0 <= i <= |fragments|
        invariant forall j :: 0 <= j < i ==>
                    && fragments[j].offset <= offset
                    && !(fragments[j].offset < offset < fragments[j].offset + fragments[j].length)
      {
        var frag := fragments[i];
        if frag.offset < offset && frag.offset + frag.length > offset {
          return -1, [];
        }
        if frag.offset > offset {
          break;
        }
        i := i + 1;
      }
      assert !Overlaps(fragments, offset);
      PositionIs(fragments, offset, i);
      InsertedKeeps(fragments, fragment);
      InsertedAll(fragments, fragment);
      fragments := fragments[..i] + [fragment] + fragments[i..];
      if isLast {
        hasLast := true;
      }
      if hasLast {
        var complete := HasAllFragments();
        if complete {
          datagram := CombineFragments();
          return if datagram == [] then -1 else 1, datagram;
        }
      }
      return 0, [];
    }
  }

  lemma Halves(header: seq<Byte>, payload: seq<Byte>, cut: nat)
    requires cut <= |payload|
    ensures header + payload == header + payload[..cut] + payload[cut..|payload|]
  {
  }

  lemma CombinedIs(fs: seq<Fragment>, packet: seq<Byte>)
    requires fs != [] && (forall i :: 0 <= i < |fs| ==> fs[i].Valid()) && 20 <= |packet| < 0x10000
    requires fs[0].data + Payloads(fs[1..]) == packet
    ensures Combined(fs) == Whole(packet)
  {
  }

  lemma NoPayloads(fs: seq<Fragment>)
    requires fs == []
    ensures Payloads(fs) == []
  {
  }

  lemma FirstPayload(fs: seq<Fragment>)
    requires fs != [] && forall i :: 0 <= i < |fs| ==> fs[i].Valid()
    ensures |Payloads(fs)| == fs[0].length + |Payloads(fs[1..])|
  {
  }

  lemma {:induction false} PayloadsGrow(fs: seq<Fragment>, i: nat)
    requires i <= |fs| && forall i :: 0 <= i < |fs| ==> fs[i].Valid()
    ensures |Payloads(fs[..i])| <= |Payloads(fs)|
    decreases |fs| - i
  {
    if i == |fs| {
      assert fs[..i] == fs;
    } else {
      assert fs[..i + 1] == fs[..i] + [fs[i]];
      PayloadsAppend(fs[..i], fs[i]);
      PayloadsGrow(fs, i + 1);
    }
  }

  lemma NextPayload(fs: seq<Fragment>, i: nat)
    requires i < |fs| && forall i :: 0 <= i < |fs| ==> fs[i].Valid()
    ensures Payloads(fs[..i + 1]) == Payloads(fs[..i]) + fs[i].Payload()
    ensures |Payloads(fs[..i + 1])| <= |Payloads(fs)|
  {
    assert fs[..i + 1] == fs[..i] + [fs[i]];
    PayloadsAppend(fs[..i], fs[i]);
    PayloadsGrow(fs, i + 1);
  }

  lemma {:induction false} PositionIs(fs: seq<Fragment>, offset: nat, i: nat)
    requires i <= |fs| && (forall j :: 0 <= j < i ==> fs[j].offset <= offset) && (i < |fs| ==> fs[i].offset > offset)
    ensures Position(fs, offset) == i
  {
    var p := Position(fs, offset);
  }

  lemma InsertedKeeps(fs: seq<Fragment>, f: Fragment)
    requires AllValid(fs) && Sorted(fs) && f.Valid()
    ensures AllValid(Inserted(fs, f)) && Sorted(Inserted(fs, f))
  {
    hide AllValid, Sorted, Inserted;
    InsertedValid(fs, f);
    InsertedSorted(fs, f);
  }

  /** Nothing else changes. */
  lemma InsertedAll(fs: seq<Fragment>, f: Fragment)
    ensures multiset(Inserted(fs, f)) == multiset(fs) + multiset{f}
  {
    var p := Position(fs, f.offset);
    assert fs == fs[..p] + fs[p..];
  }

  lemma InsertedValid(fs: seq<Fragment>, f: Fragment)
    requires AllValid(fs) && f.Valid()
    ensures AllValid(Inserted(fs, f))
  {
    hide Position, HdrLen;
  }

  lemma InsertedSorted(fs: seq<Fragment>, f: Fragment)
    requires Sorted(fs)
    ensures Sorted(Inserted(fs, f))
  {
    hide Position;
    var p, r := Position(fs, f.offset), Inserted(fs, f);
    forall i | 0 <= i < |r| ensures r[i] == if i < p then fs[i] else if i == p then f else fs[i - 1] {
    }
    forall i, j | 0 <= i < j < |r| ensures r[i].offset <= r[j].offset {
      assert j > p ==> fs[p].offset <= fs[j - 1].offset;
      assert i < p ==> fs[i].offset <= f.offset;
    }
  }

  // ----- the fragments of one datagram -----

  /** A payload cut into pieces that are not empty, each with a header of the same
      length. */
  datatype Datagram = Datagram(payload: seq<Byte>, cuts: seq<nat>, headers: seq<seq<Byte>>, h: nat) {

    predicate Valid() {
      && headers != [] && |cuts| == |headers| + 1 && cuts[0] == 0 && cuts[|headers|] == |payload|
      && (forall i, j :: 0 <= i < j < |cuts| ==> cuts[i] < cuts[j])
      && 20 <= h && h + |payload| < 0x10000
      && (forall i :: 0 <= i < |headers| ==> |headers[i]| == h && HdrLen(headers[i]) == h)
    }

    function Piece(k: nat): (f: Fragment)
      requires Valid() && k < |headers|
      ensures f.Valid() && HdrLen(f.data) == h && f.offset == cuts[k] && f.length == cuts[k + 1] - cuts[k]
      ensures f.Payload() == payload[cuts[k]..cuts[k + 1]]
    {
      assert cuts[k] < cuts[k + 1];
      assert k + 1 < |headers| ==> cuts[k + 1] < cuts[|headers|];
      Fragment(cuts[k], cuts[k + 1] - cuts[k], headers[k] + payload[cuts[k]..cuts[k + 1]])
    }

    ghost predicate Pieces(idx: seq<nat>) {
      forall i :: 0 <= i < |idx| ==> idx[i] < |headers|
    }

    ghost function Held(idx: seq<nat>): (fs: seq<Fragment>)
      requires Valid() && Pieces(idx)
      ensures |fs| == |idx| && forall i :: 0 <= i < |fs| ==> fs[i] == Piece(idx[i])
    {
      if idx == [] then [] else [Piece(idx[0])] + Held(idx[1..])
    }

    lemma Ordered(i: nat, j: nat)
      requires Valid() && i <= |headers| && j <= |headers|
      ensures |cuts| == |headers| + 1 && (i < j <==> cuts[i] < cuts[j]) && (i <= j ==> cuts[i] <= cuts[j])
      ensures cuts[i] <= |payload| < 0x10000 - h && cuts[j] <= |payload|
    {
      assert i < |headers| ==> cuts[i] < cuts[|headers|];
      assert j < |headers| ==> cuts[j] < cuts[|headers|];
    }

    lemma HeldTail(idx: seq<nat>)
      requires Valid() && Pieces(idx) && idx != []
      ensures Pieces(idx[1..]) && Held(idx)[1..] == Held(idx[1..]) && Held(idx)[0] == Piece(idx[0])
      ensures forall i :: 0 <= i < |idx| ==> Held(idx)[i].Valid()
    {
    }

    /** Where a piece stands against another one. */
    lemma Against(i: nat, k: nat)
      requires Valid() && i < |headers| && k < |headers|
      ensures |cuts| == |headers| + 1 && (Piece(i).offset <= cuts[k] <==> i <= k)
      ensures !(Piece(i).offset < cuts[k] < Piece(i).offset + Piece(i).length)
    {
      hide Valid;
      Ordered(i, k);
      Ordered(k, i);
      Ordered(i + 1, k);
      Ordered(k, i + 1);
    }

    /** A new piece goes to its place among the others. */
    lemma HeldInserted(idx: seq<nat>, k: nat) returns (after: seq<nat>)
      requires Valid() && Pieces(idx) && Increasing(idx) && k < |headers|
      ensures Pieces(after) && Increasing(after) && multiset(after) == multiset(idx) + multiset{k}
      ensures Held(after) == Inserted(Held(idx), Piece(k)) && !Overlaps(Held(idx), cuts[k])
      ensures AllValid(Held(idx)) && Sorted(Held(idx))
    {
      hide Valid, Piece, Held, Position, Increasing;
      Ordered(k, k);
      var fs := Held(idx);
      HeldSorted(idx, k);
      var p := Position(fs, cuts[k]);
      after := idx[..p] + [k] + idx[p..];
      SplitIncreasing(idx, k, p);
      assert Held(after) == fs[..p] + [Piece(k)] + fs[p..];
    }

    lemma HeldSorted(idx: seq<nat>, k: nat)
      requires Valid() && Pieces(idx) && Increasing(idx) && k < |headers|
      ensures |cuts| == |headers| + 1 && AllValid(Held(idx)) && Sorted(Held(idx)) && !Overlaps(Held(idx), cuts[k])
      ensures forall i :: 0 <= i < |idx| ==> (Held(idx)[i].offset <= cuts[k] <==> idx[i] <= k)
    {
      hide Valid, Piece, Held;
      Ordered(k, k);
      var fs := Held(idx);
      forall i | 0 <= i < |fs|
        ensures fs[i].Valid()
        ensures fs[i].offset <= cuts[k] <==> idx[i] <= k
        ensures !(fs[i].offset < cuts[k] < fs[i].offset + fs[i].length)
      {
        Against(idx[i], k);
      }
      forall i, j | 0 <= i < j < |fs| ensures fs[i].offset <= fs[j].offset {
        Ordered(idx[j], idx[i]);
      }
    }

    /** All pieces have headers of one length. */
    lemma HeldInside(idx: seq<nat>)
      requires Valid() && Pieces(idx)
      ensures AllValid(Held(idx)) && Inside(Held(idx))
    {
      hide Valid, Piece, Held;
      InsideExactly(Held(idx));
    }

    /** The pieces touch exactly when they are consecutive. */
    lemma {:induction false} ContiguousHeld(idx: seq<nat>, k: nat)
      requires Valid() && Pieces(idx) && k <= |headers|
      ensures Contiguous(Held(idx), cuts[k]) <==> Consecutive(idx, k)
      decreases |idx|
    {
      hide Valid, Piece, Held;
      Ordered(k, k);
      if idx != [] {
        HeldTail(idx);
        Ordered(idx[0], k);
        Ordered(k, idx[0]);
        if idx[0] == k {
          Ordered(k, k + 1);
          ContiguousHeld(idx[1..], k + 1);
          ConsecutiveTail(idx, k);
        }
      }
    }

    lemma {:induction false} PayloadsHeld(idx: seq<nat>, k: nat)
      requires Valid() && Pieces(idx) && k + |idx| <= |headers| && Consecutive(idx, k)
      ensures cuts[k] <= cuts[k + |idx|] && Payloads(Held(idx)) == payload[cuts[k]..cuts[k + |idx|]]
      decreases |idx|
    {
      hide Valid, Piece, Held, Consecutive;
      Ordered(k, k + |idx|);
      if idx == [] {
        NoneHeld();
      } else {
        HeldTail(idx);
        ConsecutiveTail(idx, k);
        Ordered(k, k + 1);
        PayloadsHeld(idx[1..], k + 1);
        Joined(payload, cuts[k], cuts[k + 1], cuts[k + |idx|]);
      }
    }

    lemma NoneHeld()
      requires Valid() && Pieces([])
      ensures Held([]) == []
    {
    }

    lemma FirstPiece()
      requires Valid()
      ensures headers != [] && |cuts| == |headers| + 1 && cuts[0] == 0 < cuts[1] <= |payload| == cuts[|headers|]
      ensures Piece(0).data == headers[0] + payload[..cuts[1]]
      ensures |headers[0]| == h && 20 <= h && h + |payload| < 0x10000
    {
      Ordered(0, 1);
    }

    /** The original payload behind the first header, with the total length in network
        order, no flags and no offset in it. */
    ghost predicate Restored(datagram: seq<Byte>)
      requires Valid()
    {
      && |datagram| == h + |payload| && datagram[h..] == payload
      && (datagram[2] as int) * 256 + datagram[3] as int == |datagram| && datagram[6] == 0 && datagram[7] == 0
      && forall i :: 0 <= i < h && i != 2 && i != 3 && i != 6 && i != 7 ==> datagram[i] == headers[0][i]
    }

    lemma WholeRestores()
      requires Valid()
      ensures 8 <= |headers[0] + payload| < 0x10000 && Restored(Whole(headers[0] + payload))
    {
      hide Whole, HdrLen;
      var packet := headers[0] + payload;
      WholeMeaning(packet);
      forall i | 0 <= i < |payload| ensures Whole(packet)[h..][i] == payload[i] {
        assert packet[h + i] == payload[i];
      }
    }

    /** All pieces in order make the datagram. */
    lemma CombinedHeld(idx: seq<nat>)
      requires Valid() && Pieces(idx) && Consecutive(idx, 0) && |idx| == |headers|
      ensures Combined(Held(idx)) == Whole(headers[0] + payload) && Restored(Combined(Held(idx)))
    {
      hide Valid, Piece, Held, Payloads, Whole, Consecutive, Combined, Restored;
      FirstPiece();
      HeldTail(idx);
      ConsecutiveTail(idx, 0);
      PayloadsHeld(idx[1..], 1);
      Halves(headers[0], payload, cuts[1]);
      CombinedIs(Held(idx), headers[0] + payload);
      WholeRestores();
    }
  }

  lemma Joined<T>(s: seq<T>, a: nat, b: nat, c: nat)
    requires a <= b <= c <= |s|
    ensures s[a..c] == s[a..b] + s[b..c]
  {
  }

  ghost predicate Increasing(idx: seq<nat>) {
    forall i, j :: 0 <= i < j < |idx| ==> idx[i] <= idx[j]
  }

  ghost predicate Consecutive(idx: seq<nat>, k: nat) {
    forall i :: 0 <= i < |idx| ==> idx[i] == k + i
  }

  lemma SplitIncreasing(idx: seq<nat>, k: nat, p: nat)
    requires Increasing(idx) && p <= |idx|
    requires (forall i :: 0 <= i < p ==> idx[i] <= k) && (p < |idx| ==> idx[p] > k)
    ensures Increasing(idx[..p] + [k] + idx[p..])
    ensures multiset(idx[..p] + [k] + idx[p..]) == multiset(idx) + multiset{k}
  {
    hide Increasing;
    assert idx == idx[..p] + idx[p..];
    SplitOrder(idx, k, p);
  }

  lemma SplitOrder(idx: seq<nat>, k: nat, p: nat)
    requires Increasing(idx) && p <= |idx|
    requires (forall i :: 0 <= i < p ==> idx[i] <= k) && (p < |idx| ==> idx[p] > k)
    ensures Increasing(idx[..p] + [k] + idx[p..])
  {
    var after := idx[..p] + [k] + idx[p..];
    forall i | 0 <= i < |after| ensures after[i] == if i < p then idx[i] else if i == p then k else idx[i - 1] {
    }
    forall i, j | 0 <= i < j < |after| ensures after[i] <= after[j] {
      assert j > p ==> idx[p] <= idx[j - 1];
    }
  }

  lemma ConsecutiveTail(idx: seq<nat>, k: nat)
    requires idx != []
    ensures Consecutive(idx, k) <==> idx[0] == k && Consecutive(idx[1..], k + 1)
  {
    if idx[0] == k && Consecutive(idx[1..], k + 1) {
      forall i | 0 <= i < |idx| ensures idx[i] == k + i {
        assert i > 0 ==> idx[i] == idx[1..][i - 1];
      }
    }
  }

  /** Every one of n pieces has arrived, and none twice. */
  ghost predicate EachOnce(order: seq<nat>, n: nat) {
    |order| == n && forall i, j :: 0 <= i < j < n ==> order[i] != order[j]
  }

  /** In order the pieces are 0, 1, ..., n - 1 just then. */
  lemma {:induction false} InOrder(idx: seq<nat>, n: nat, i: nat)
    requires Increasing(idx) && EachOnce(idx, n) && (forall i :: 0 <= i < |idx| ==> idx[i] < n) && i <= n
    ensures forall j :: 0 <= j < i ==> idx[j] >= j
    ensures forall j :: n - i <= j < n ==> idx[j] <= j
  {
    if i > 0 {
      InOrder(idx, n, i - 1);
      assert i > 1 ==> idx[i - 2] < idx[i - 1];
      assert i > 1 ==> idx[n - i] < idx[n - i + 1];
    }
  }

  /** With the last piece among them, pieces are consecutive from the first one when
      each is there once. */
  lemma Complete(order: seq<nat>, idx: seq<nat>, n: nat)
    requires n > 0 && Increasing(idx) && multiset(idx) == multiset(order) && forall i :: 0 <= i < |idx| ==> idx[i] < n
    ensures Consecutive(idx, 0) && n - 1 in idx <==> EachOnce(order, n)
    ensures EachOnce(order, n) ==> |idx| == n
  {
    assert |idx| == |multiset(idx)| == |multiset(order)| == |order|;
    CountedOnce(order);
    CountedOnce(idx);
    forall x ensures x in order <==> x in idx {
      assert x in order <==> x in multiset(order);
      assert x in idx <==> x in multiset(idx);
    }
    if EachOnce(order, n) {
      InOrder(idx, n, n);
      assert idx[n - 1] == n - 1;
    }
    if Consecutive(idx, 0) && n - 1 in idx {
      assert idx[|idx| - 1] == |idx| - 1;
    }
  }

  lemma AllThere(idx: seq<nat>, n: nat)
    requires n > 0 && Consecutive(idx, 0) && n - 1 in idx && forall i :: 0 <= i < |idx| ==> idx[i] < n
    ensures |idx| == n
  {
    assert idx[|idx| - 1] == |idx| - 1;
  }

  lemma Empty(n: nat)
    requires n > 0
    ensures Increasing([]) && !EachOnce([], n)
  {
  }

  /** One arrival: 1 exactly when now every piece is there once. */
  method Arrive(d: Datagram, info: PacketInfo, k: nat, ghost idx: seq<nat>)
    returns (rc: int, datagram: seq<Byte>, ghost after: seq<nat>)
    requires d.Valid() && d.Pieces(idx) && Increasing(idx) && k < |d.headers|
    requires info.fragments == d.Held(idx) && (info.hasLast <==> |d.headers| - 1 in idx)
    modifies info
    ensures d.Pieces(after) && Increasing(after) && multiset(after) == multiset(idx) + multiset{k}
    ensures info.fragments == d.Held(after) && (info.hasLast <==> |d.headers| - 1 in after)
    ensures rc == if Consecutive(after, 0) && |d.headers| - 1 in after then 1 else 0
    ensures rc == 1 ==> d.Restored(datagram)
  {
    hide d.Valid, d.Piece, d.Held, d.Restored, Inserted, Contiguous, Combined, Whole, Overlaps;
    hide Sorted, AllValid, Inside, Consecutive;
    d.FirstPiece();
    d.HeldSorted(idx, k);
    after := d.HeldInserted(idx, k);
    d.HeldInside(after);
    d.ContiguousHeld(after, 0);
    var piece := d.Piece(k);
    ghost var last := |d.headers| - 1;
    assert last in multiset(after) <==> last in multiset(idx) || k == last;
    if Consecutive(after, 0) && last in after {
      AllThere(after, |d.headers|);
      d.CombinedHeld(after);
      d.WholeRestores();
    }
    rc, datagram := info.AddFragment(piece.offset, piece.data, k == |d.headers| - 1);
  }

  /** The fragments of a datagram arrive in some order, maybe some of them twice: the
      datagram is complete when every piece has arrived once, and with no other
      history. */
  method Reassemble(d: Datagram, order: seq<nat>) returns (used: nat, complete: bool, datagram: seq<Byte>)
    requires d.Valid() && forall i :: 0 <= i < |order| ==> order[i] < |d.headers|
    ensures used <= |order| && (complete || used == |order|)
    ensures complete <==> |d.headers| <= |order| && EachOnce(order[..|d.headers|], |d.headers|)
    ensures complete ==> used == |d.headers|
    ensures complete ==> |datagram| == d.h + |d.payload| && datagram[d.h..] == d.payload
    ensures complete ==>
              (datagram[2] as int) * 256 + datagram[3] as int == |datagram| && datagram[6] == 0 && datagram[7] == 0
    ensures complete ==>
              forall i :: 0 <= i < d.h && i != 2 && i != 3 && i != 6 && i != 7 ==> datagram[i] == d.headers[0][i]
    ensures EachOnce(order, |d.headers|) ==> complete && used == |order|
    ensures (exists i, j :: 0 <= i < j < |d.headers| && j < |order| && order[i] == order[j]) ==> !complete
  {
    hide d.Valid, d.Held, Whole, Consecutive, Increasing, EachOnce;
    d.FirstPiece();
    Empty(|d.headers|);
    var info := new PacketInfo();
    ghost var idx: seq<nat> := [];
    used, complete, datagram := 0, false, [];
    d.NoneHeld();
    while used < |order|
      invariant used <= |order| && d.Pieces(idx) && Increasing(idx) && multiset(idx) == multiset(order[..used])
      invariant info.fragments == d.Held(idx) && (info.hasLast <==> |d.headers| - 1 in idx)
      invariant forall i :: 0 <= i <= used ==> !EachOnce(order[..i], |d.headers|)
    {
      var k := order[used];
      var rc;
      ghost var after;
      rc, datagram, after := Arrive(d, info, k, idx);
      OneArrival(order, used);
      used := used + 1;
      Complete(order[..used], after, |d.headers|);
      idx := after;
      if rc == 1 {
        OnlyThen(order, |d.headers|, used);
        return used, true, datagram;
      }
    }
    NeverThen(order, |d.headers|);
  }

  lemma OneArrival(order: seq<nat>, i: nat)
    requires i < |order|
    ensures multiset(order[..i + 1]) == multiset(order[..i]) + multiset{order[i]}
  {
    assert order[..i + 1] == order[..i] + [order[i]];
  }

  /** When a part of an order has each piece once. */
  lemma OnlyThen(order: seq<nat>, n: nat, i: nat)
    requires i <= |order| && EachOnce(order[..i], n)
    ensures i == n && (EachOnce(order, n) ==> i == |order|)
    ensures !exists a, b :: 0 <= a < b < n && b < |order| && order[a] == order[b]
  {
    forall a, b | 0 <= a < b < n && b < |order| ensures order[a] != order[b] {
      assert order[..i][a] == order[a] && order[..i][b] == order[b];
    }
  }

  lemma NeverThen(order: seq<nat>, n: nat)
    requires forall i :: 0 <= i <= |order| ==> !EachOnce(order[..i], n)
    ensures !EachOnce(order, n) && !(n <= |order| && EachOnce(order[..n], n))
  {
    assert order[..|order|] == order;
  }
}
