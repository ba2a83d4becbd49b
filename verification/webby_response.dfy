/** The chunked response of webby/webby.c: chunk buffers with room reserved for a
    header, and the sink that puts the header in front of the data. */
module WebbyResponse {
  import opened Bf
  import opened ChunkWire
  import opened ChunkRoundTrip
  import opened HttpParser
  import opened Seqs

  const RESERVED_FOR_CHUNK_HEADER_SIZE: nat := 15
  const CHUNK_HEADER_ROOM: nat := 20
  const LAST_CHUNK_NOT_FIRST: seq<byte> := CRLF + [48] + CRLF + CRLF
  const LAST_CHUNK_FIRST: seq<byte> := [48] + CRLF + CRLF

  /** The text in front of a chunk of n bytes. */
  function ChunkHeader(chunkNo: nat, n: nat): seq<byte> {
    (if chunkNo != 0 then CRLF else []) + Hex(n) + CRLF
  }

  /** What snprintf and strncpy leave of a text in a scratch of 20 bytes. */
  function Printed(text: seq<byte>): (s: seq<byte>)
    ensures |s| == |text| && (|text| < CHUNK_HEADER_ROOM ==> s == text)
  {
    if |text| < CHUNK_HEADER_ROOM then text
    else text[..CHUNK_HEADER_ROOM - 1] + seq(|text| - CHUNK_HEADER_ROOM + 1, _ => 0)
  }

  class Response {
    /** 1: nothing sent; 2: the header is sent; 3: finished. */
    var state: int
    var chunkNo: nat
    const chunked: bool
    const connectionClose: bool
    var bf: BF?
    var chunkBufSize: nat
    /** The body bytes handed to the connection. */
    var wire: seq<byte>

    constructor (chunked: bool, connectionClose: bool)
      ensures this.chunked == chunked && this.connectionClose == connectionClose
      ensures state == 1 && chunkNo == 0 && bf == null && wire == []
    {
      this.chunked, this.connectionClose := chunked, connectionClose;
      state, chunkNo, bf, chunkBufSize, wire := 1, 0, null, 0, [];
    }

    /** The chunk buffer of the response is its own. */
    ghost predicate Valid()
      reads this, bf
    {
      bf != null ==> bf.Valid() && bf.start <= RESERVED_FOR_CHUNK_HEADER_SIZE
                     && bf.buf.Length == chunkBufSize + RESERVED_FOR_CHUNK_HEADER_SIZE
    }

    /** HTTP_response_get_chunk_buffer, without the growing of a buffer. */
    method GetChunkBuffer(chunkSize: nat) returns (r: BF)
      requires Valid() && (bf != null ==> chunkSize <= chunkBufSize)
      modifies this`bf, this`chunkBufSize, bf
      ensures Valid() && r == bf && (if old(bf) == null then fresh(r) && fresh(r.buf) else r == old(bf))
      ensures r.start == r.get == r.put == RESERVED_FOR_CHUNK_HEADER_SIZE && r.end == r.put + chunkSize
      ensures chunkBufSize == if old(bf) == null then chunkSize else old(chunkBufSize)
    {
      hide BF.Content;
      if bf == null {
        bf := new BF(chunkSize + RESERVED_FOR_CHUNK_HEADER_SIZE);
        chunkBufSize := chunkSize;
      }
      r := bf;
      r.PutMode();
      var _ := r.SetStart(RESERVED_FOR_CHUNK_HEADER_SIZE);
      r.end := r.put + chunkSize;
    }

    /** The chunk branch of sink_on_response_data. */
    method SinkChunk(b: BF) returns (rc: int)
      requires b.Valid()
      modifies this`wire, b`start, b.buf
      ensures b.Valid()
      ensures var h := ChunkHeader(chunkNo, b.put - b.get);
              if |h| > old(b.start) then rc == -1 && wire == old(wire) && b.start == old(b.start) && unchanged(b.buf)
              else
                && rc == 0 && b.start == old(b.start) - |h|
                && wire == old(wire) + Printed(h) + old(b.buf[b.start..b.put])
    {
      hide Printed, ChunkHeader;
      var h := ChunkHeader(chunkNo, b.GetSize());
      if b.start < |h| {
        return -1;
      }
      ghost var data := b.buf[b.start..b.put];
      PutFront(b, Printed(h));
      assert wire + (Printed(h) + data) == wire + Printed(h) + data;
      wire := wire + b.buf[b.start..b.put];
      return 0;
    }

    /** Puts a text right in front of what a buffer holds from its start on. */
    method PutFront(b: BF, text: seq<byte>)
      requires b.Valid() && |text| <= b.start
      modifies b`start, b.buf
      ensures b.Valid() && b.start == old(b.start) - |text|
      ensures b.buf[b.start..b.put] == text + old(b.buf[b.start..b.put])
    {
      ghost var data := b.buf[b.start..b.put];
      ghost var at := b.start;
      b.start := b.start - |text|;
      forall i | 0 <= i < |text| {
        b.buf[b.start + i] := text[i];
      }
      forall i | 0 <= i < |text + data| ensures b.buf[..][b.start + i] == (text + data)[i] {
        if i >= |text| {
          assert data[i - |text|] == old(b.buf[at + (i - |text|)]);
        }
      }
      RangeIs(b.buf[..], b.start, b.put, text + data);
      assert b.buf[b.start..b.put] == b.buf[..][b.start..b.put];
    }

    /** HTTP_response_write_chunk. */
    method WriteChunk(b: BF) returns (rc: int)
      requires b.Valid()
      modifies this`state, this`chunkNo, this`wire, b`start, b.buf
      ensures b.Valid()
      ensures old(state) < 1 || old(state) > 2 || !(chunked || connectionClose) ==>
                rc == -1 && unchanged(this) && unchanged(b)
      ensures 1 <= old(state) <= 2 && (chunked || connectionClose) ==>
                && state == 2
                && chunkNo == (if old(state) == 1 then old(chunkNo) else old(chunkNo) + 1)
                && if connectionClose then rc == 0 && wire == old(wire) + old(b.Content())
                   else
                     var h := ChunkHeader(chunkNo, old(b.put - b.get));
                     if |h| > old(b.start) then rc == -1 && wire == old(wire)
                     else rc == 0 && b.start == old(b.start) - |h|
                          && wire == old(wire) + Printed(h) + old(b.buf[b.start..b.put])
    {
      if state < 1 || state > 2 {
        return -1;
      }
      if !(chunked || connectionClose) {
        return -1;
      }
      if state == 1 {
        state := 2;
      } else {
        chunkNo := chunkNo + 1;
      }
      if connectionClose {
        wire := wire + b.buf[b.get..b.put];
        return 0;
      }
      rc := SinkChunk(b);
    }

    /** HTTP_response_finish. */
    method Finish() returns (rc: int)
      modifies this`state, this`chunkNo, this`wire
      ensures if old(state) < 1 || old(state) > 2 then rc == -1 && unchanged(this)
              else
                && rc == 0 && state == 3
                && (if chunked then chunkNo == old(chunkNo) + 1 && wire == old(wire) + LAST_CHUNK_NOT_FIRST
                    else chunkNo == old(chunkNo) && wire == old(wire))
    {
      if state < 1 || state > 2 {
        return -1;
      }
      if chunked {
        chunkNo := chunkNo + 1;
        wire := wire + (if chunkNo != 0 then LAST_CHUNK_NOT_FIRST else LAST_CHUNK_FIRST);
      }
      state := 3;
      return 0;
    }
  }

  /** The header of chunk number i fits into the reserved room. */
  predicate HeaderFits(i: nat, c: seq<byte>) {
    |ChunkHeader(i, |c|)| <= RESERVED_FOR_CHUNK_HEADER_SIZE
  }

  /** The reserved room holds the header of a first chunk below 16^13 bytes and of
      a later chunk below 16^11 bytes. */
  lemma RoomForHeader(i: nat, c: seq<byte>)
    ensures HeaderFits(i, c) <==> |c| < Pow16(if i == 0 then 13 else 11)
  {
    HexLength(|c|, if i == 0 then 13 else 11);
  }

  /** Sends chunk i of a list: the bytes sent so far, closed by a line end, are the
      wire form of the chunks sent so far. */
  method SendOne(resp: Response, ghost done: seq<seq<byte>>, c: seq<byte>, maxSize: nat) returns (rc: int)
    requires resp.Valid() && resp.chunked && !resp.connectionClose && |c| <= maxSize
    requires resp.bf != null ==> resp.chunkBufSize == maxSize
    requires Sent(resp.state, resp.chunkNo, resp.wire, done)
    modifies resp, resp.bf, if resp.bf == null then {} else {resp.bf.buf}
    ensures resp.Valid() && resp.bf != null && resp.chunkBufSize == maxSize
    ensures if old(resp.bf) == null then fresh(resp.bf) && fresh(resp.bf.buf) else resp.bf == old(resp.bf)
    ensures rc == if HeaderFits(|done|, c) then 0 else -1
    ensures rc == 0 ==> Sent(resp.state, resp.chunkNo, resp.wire, done + [c])
  {
    hide Chunks, Hex;
    var b := resp.GetChunkBuffer(maxSize);
    assert b.Content() == [];
    var _ := b.Putn(c);
    assert b.buf[b.start..b.put] == c;
    ghost var before := resp.wire;
    rc := resp.WriteChunk(b);
    if rc == 0 {
      Appended(before, done, c, resp.wire);
    }
  }

  /** The state of a chunked response after the chunks `done`. */
  ghost predicate Sent(state: int, chunkNo: nat, wire: seq<byte>, done: seq<seq<byte>>) {
    if done == [] then state == 1 && chunkNo == 0 && wire == []
    else state == 2 && chunkNo == |done| - 1 && wire + CRLF == Chunks(done)
  }

  lemma Appended(before: seq<byte>, done: seq<seq<byte>>, c: seq<byte>, after: seq<byte>)
    requires if done == [] then before == [] else before + CRLF == Chunks(done)
    requires after == before + ChunkHeader(|done|, |c|) + c
    ensures after + CRLF == Chunks(done + [c])
  {
    hide Hex, Chunks, ChunkHeader;
    ChunksSnoc(done, c);
    Lead(|done|, |c|);
    var lead := if done == [] then [] else CRLF;
    assert before + lead == Chunks(done) by {
      NoChunks();
      assert before + [] == before;
    }
    Regroup(before, lead, Hex(|c|), c);
  }

  lemma NoChunks()
    ensures Chunks([]) == []
  {
  }

  lemma Lead(chunkNo: nat, n: nat)
    ensures ChunkHeader(chunkNo, n) == (if chunkNo != 0 then CRLF else []) + Hex(n) + CRLF
  {
  }

  lemma Regroup(before: seq<byte>, lead: seq<byte>, h: seq<byte>, c: seq<byte>)
    ensures before + (lead + h + CRLF) + c + CRLF == (before + lead) + h + CRLF + c + CRLF
  {
  }

  /** Sends all chunks through the chunk buffer and finishes the response. */
  method SendAll(chunks: seq<seq<byte>>, maxSize: nat) returns (rc: int, wire: seq<byte>)
    requires forall c :: c in chunks ==> |c| <= maxSize
    ensures rc == 0 <==> forall i :: 0 <= i < |chunks| ==> HeaderFits(i, chunks[i])
    ensures rc == 0 ==> wire == if chunks == [] then EmptyResponse else Wire(chunks)
    ensures rc == 0 || rc == -1
  {
    hide Chunks, Hex, HeaderFits;
    var resp := new Response(true, false);
    var i := 0;
    while i < |chunks|
      invariant 0 <= i <= |chunks| && fresh(resp) && resp.Valid() && resp.chunked && !resp.connectionClose
      invariant resp.bf != null ==> fresh(resp.bf) && fresh(resp.bf.buf) && resp.chunkBufSize == maxSize
      invariant Sent(resp.state, resp.chunkNo, resp.wire, chunks[..i])
      invariant forall j :: 0 <= j < i ==> HeaderFits(j, chunks[j])
    {
      rc := SendOne(resp, chunks[..i], chunks[i], maxSize);
      if rc != 0 {
        return -1, resp.wire;
      }
      assert chunks[..i] + [chunks[i]] == chunks[..i + 1];
      i := i + 1;
    }
    assert chunks[..i] == chunks;
    ghost var sent := resp.wire;
    rc := resp.Finish();
    wire := resp.wire;
    if chunks != [] {
      WireOfChunks(chunks);
      assert sent + LAST_CHUNK_NOT_FIRST == (sent + CRLF) + [48] + CRLF + CRLF;
    } else {
      assert [] + LAST_CHUNK_NOT_FIRST == EmptyResponse;
    }
  }

  /** The pieces in which a stream arrives: of the given sizes, and of the size `most`
      when there are no more of these. */
  function Cut(w: seq<byte>, sizes: seq<nat>, most: nat): (pieces: seq<seq<byte>>)
    requires 0 < most
    ensures Concat(pieces) == w
    decreases |sizes|, |w|
  {
    var n := if sizes == [] then most else sizes[0];
    if |w| <= n then
      assert w + [] == w;
      [w]
    else
      [w[..n]] + Cut(w[n..], if sizes == [] then [] else sizes[1..], most)
  }

  lemma {:induction false} SmallPieces(w: seq<byte>, sizes: seq<nat>, most: nat, bound: nat)
    requires 0 < most <= bound && forall s :: s in sizes ==> s <= bound
    ensures forall p :: p in Cut(w, sizes, most) ==> |p| <= bound
    decreases |sizes|, |w|
  {
    hide Concat;
    var n := if sizes == [] then most else sizes[0];
    assert sizes != [] ==> sizes[0] in sizes;
    if n < |w| {
      var rest := if sizes == [] then [] else sizes[1..];
      assert forall s :: s in rest ==> s in sizes;
      SmallPieces(w[n..], rest, most, bound);
    }
  }

  /** Each piece leaves 17 bytes of the buffer. */
  predicate Spares(sizes: seq<nat>, most: nat, bufferSize: nat) {
    most + 17 <= bufferSize && forall s :: s in sizes ==> s + 17 <= bufferSize
  }

  lemma SpareFits(w: seq<byte>, sizes: seq<nat>, most: nat, bufferSize: nat)
    requires 0 < most && Spares(sizes, most, bufferSize)
    ensures Fit(Cut(w, sizes, most), bufferSize)
  {
    hide Cut, Concat;
    SmallPieces(w, sizes, most, bufferSize - 17);
  }

  /** Encoder, network and decoder together: for every list of chunks with headers
      that fit the reserved room and for every way to cut the wire, the receiver
      either runs out of room, but never on pieces that leave 17 bytes of the buffer, or
      is done; it got the data without a byte left unread exactly when there is a chunk
      and no chunk is empty. */
  method Transfer(chunks: seq<seq<byte>>, maxSize: nat, sizes: seq<nat>, most: nat, bufferSize: nat)
    returns (v: Verdict, body: seq<byte>, unread: nat)
    requires forall c :: c in chunks ==> |c| <= maxSize
    requires forall i :: 0 <= i < |chunks| ==> HeaderFits(i, chunks[i])
    requires 2 <= bufferSize && 0 < most
    ensures v == NoRoom || v == if chunks == [] then Broken else Done
    ensures Spares(sizes, most, bufferSize) ==> v != NoRoom
    ensures v == Done ==> (unread == 0 <==> [] !in chunks) && ([] !in chunks ==> body == Concat(chunks))
  {
    hide Wire, Receive, Concat, HeaderFits, Cut, Spares, Fit, Effective;
    var rc, wire := SendAll(chunks, maxSize);
    var parser := new ChunkParser();
    var bf := new BF(bufferSize);
    assert bf.Content() == [];
    var arrivals := Cut(wire, sizes, most);
    assert Spares(sizes, most, bufferSize) ==> bufferSize >= 7 && Fit(arrivals, bufferSize) by {
      if Spares(sizes, most, bufferSize) {
        SpareFits(wire, sizes, most, bufferSize);
        SparesRoom(sizes, most, bufferSize);
      }
    }
    var used; ghost var r;
    v, used, r := ReceiveAll(parser, bf, arrivals);
    body := parser.delivered;
    unread := bf.GetSize() + Total(arrivals[used..]);
    if chunks == [] {
      assert [] + Concat(arrivals) == EmptyResponse;
      NoChunkFails(bufferSize, 0, [], arrivals);
    } else {
      SizesFit(chunks);
      Arrived(bufferSize, chunks, arrivals);
      assert v == Done ==> unread == |r.rest + Concat(r.left)|;
    }
  }

  /** What a whole wire is received as. */
  lemma Arrived(cap: nat, chunks: seq<seq<byte>>, arrivals: seq<seq<byte>>)
    requires Sizes(chunks) && Concat(arrivals) == Wire(chunks) && 2 <= cap
    ensures var x := Receive(cap, Parser(Header, 0), [], arrivals);
            && (x.Overflow? || x.Finished?) && (Fit(arrivals, cap) ==> x.Finished?)
            && (x.Finished? ==> (|x.rest + Concat(x.left)| == 0 <==> [] !in chunks))
            && (x.Finished? && [] !in chunks ==> x.body == Concat(chunks))
  {
    hide Wire, Receive, Concat, Fit, Effective;
    assert Concat(arrivals) + [] == Wire(chunks);
    RoundTrip(cap, 0, chunks, arrivals, []);
    RoundTripExactly(cap, 0, chunks, arrivals);
  }

  lemma SparesRoom(sizes: seq<nat>, most: nat, bufferSize: nat)
    requires Spares(sizes, most, bufferSize)
    ensures bufferSize >= 17
  {
  }

  function Total(as': seq<seq<byte>>): (n: nat)
    ensures n == |Concat(as')|
  {
    if as' == [] then 0 else |as'[0]| + Total(as'[1..])
  }

  lemma SizesFit(chunks: seq<seq<byte>>)
    requires forall i :: 0 <= i < |chunks| ==> HeaderFits(i, chunks[i])
    ensures Sizes(chunks)
  {
    forall c | c in chunks
      ensures |c| <= LONG_MAX
    {
      var i :| 0 <= i < |chunks| && chunks[i] == c;
      RoomForHeader(i, c);
      assert Pow16(11) == 0x1000_0000_0000 && Pow16(13) == 0x10_0000_0000_0000 by {
        assert Pow16(4) == 0x1_0000;
        assert Pow16(8) == 0x1_0000_0000;
      }
    }
  }
}
