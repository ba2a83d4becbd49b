/** From the header writer to the header parser of hutils/http.c. */
module HttpHeaders {
  import opened Bf
  import opened ChunkWire
  import opened ChunkLines
  import opened HttpParser
  import opened HttpWriter
  import opened Seqs

  // ----- reading -----

  /** How the header state ends: with the lines it took and the bytes it left. */
  datatype Lines = Lines(status: Status, taken: seq<seq<byte>>, rest: seq<byte>)

  /** Header lines up to an empty one; cap is the size of the buffer. */
  function LinesOf(cap: nat, c: seq<byte>): Lines
    decreases |c|
  {
    match FindLine(c)
    case NoLine => Lines(if |c| == cap then Error else NeedMoreData, [], c)
    case Overrun => Lines(Unspecified, [], c)
    case At(k) =>
      LineIn(c);
      if k == 0 || c[0] == 0 then Lines(Completed, [], c[k + 2..])
      else if !HeaderLineOk(c[..k]) then Lines(Error, [], c[k + 2..])
      else
        var later := LinesOf(cap, c[k + 2..]);
        later.(taken := [c[..k]] + later.taken)
  }

  /** The header state of the parsers: one line after the other, up to the empty one. */
  method ReadHeaders(parser: ChunkParser, bf: BF) returns (st: Status, count: nat)
    requires bf.Valid()
    modifies bf`get, bf`put, bf.buf
    ensures bf.Valid()
    ensures var r := LinesOf(bf.end - bf.start, old(bf.Content()));
            st == r.status && count == |r.taken| && bf.Content() == r.rest
  {
    hide FindLine, HeaderLineOk;
    ghost var cap := bf.end - bf.start;
    ghost var r := LinesOf(cap, bf.Content());
    var eofHeader := false;
    st, count := Completed, 0;
    while st == Completed && !eofHeader
      invariant bf.Valid() && bf.end - bf.start == cap
      invariant var later := LinesOf(cap, bf.Content());
                if st == Completed && !eofHeader
                then r.status == later.status && r.rest == later.rest && |r.taken| == count + |later.taken|
                else r.status == st && r.rest == bf.Content() && |r.taken| == count
      decreases st == Completed && !eofHeader, |bf.Content()|
    {
      st, eofHeader := parser.ParseHeaderLine(bf);
      if st == Completed && !eofHeader {
        count := count + 1;
      }
    }
  }

  // ----- what was written is read -----

  /** Lines, each with its end, and the empty line. */
  function Block(lines: seq<seq<byte>>): seq<byte> {
    if lines == [] then CRLF else lines[0] + CRLF + Block(lines[1..])
  }

  /** A name up to a colon, and no line end. */
  ghost predicate FieldOk(line: seq<byte>) {
    NoCr(line) && exists k: nat :: NamedTo(line, k)
  }

  ghost predicate FieldsOk(lines: seq<seq<byte>>) {
    forall l :: l in lines ==> FieldOk(l)
  }

  lemma FieldIsHeader(line: seq<byte>)
    requires FieldOk(line)
    ensures line != [] && line[0] != 0 && HeaderLineOk(line)
  {
    hide HeaderLineOk;
    HeaderLineMeaning(line);
    var k: nat :| NamedTo(line, k);
  }

  lemma EmptyLine(cap: nat, after: seq<byte>)
    ensures LinesOf(cap, CRLF + after) == Lines(Completed, [], after)
  {
    hide FindLine;
    WholeLine([], after);
    assert [] + CRLF + after == CRLF + after;
  }

  lemma FirstLine(cap: nat, line: seq<byte>, tail: seq<byte>)
    requires FieldOk(line)
    ensures var later := LinesOf(cap, tail);
            LinesOf(cap, line + CRLF + tail) == later.(taken := [line] + later.taken)
  {
    hide FindLine, HeaderLineOk, NamedTo;
    FieldIsHeader(line);
    WholeLine(line, tail);
  }

  /** A block of lines is read back, and nothing behind it is touched. */
  lemma {:induction false} ReadsBlock(cap: nat, lines: seq<seq<byte>>, after: seq<byte>)
    requires FieldsOk(lines)
    ensures LinesOf(cap, Block(lines) + after) == Lines(Completed, lines, after)
    decreases |lines|
  {
    hide LinesOf, FieldOk;
    if lines == [] {
      EmptyLine(cap, after);
    } else {
      assert lines[0] in lines;
      var tail := Block(lines[1..]) + after;
      assert Block(lines) + after == lines[0] + CRLF + tail;
      FirstLine(cap, lines[0], tail);
      ReadsBlock(cap, lines[1..], after);
    }
  }

  /** The lines of a response header behind the status line. */
  function Fields(r: Response, contentLength: seq<byte>): seq<seq<byte>> {
    (if r.connectionClose then [Ascii("Connection: close")] else [])
    + (if r.chunked then [Ascii("Transfer-encoding: chunked")] else [])
    + (if r.hasContentLength then [contentLength] else [])
    + Stored(r.headers)
  }

  function Stored(hs: seq<(seq<byte>, seq<byte>)>): seq<seq<byte>> {
    if hs == [] then [] else [hs[0].0 + Ascii(": ") + hs[0].1] + Stored(hs[1..])
  }

  /** No part of the header has a line end in it, and the names are names. */
  ghost predicate Clean(r: Response, status: seq<byte>, contentLength: seq<byte>) {
    && NoCr(status) && r.statusLine == status + CRLF
    && (r.hasContentLength ==> r.contentLengthLine == contentLength + CRLF && FieldOk(contentLength))
    && forall h :: h in r.headers ==> IsName(h.0) && NoCr(h.1)
  }

  ghost predicate IsName(name: seq<byte>) {
    forall i :: 0 <= i < |name| ==> 32 < name[i] && name[i] != 127 && name[i] != ':' as int
  }

  lemma StoredOk(name: seq<byte>, value: seq<byte>)
    requires IsName(name) && NoCr(value)
    ensures FieldOk(name + Ascii(": ") + value)
  {
    var line := name + Ascii(": ") + value;
    assert NamedTo(line, |name|);
  }

  lemma FlagsOk()
    ensures FieldOk(Ascii("Connection: close")) && FieldOk(Ascii("Transfer-encoding: chunked"))
  {
    assert NamedTo(Ascii("Connection: close"), 10);
    assert NamedTo(Ascii("Transfer-encoding: chunked"), 17);
  }

  lemma {:induction false} StoredBlock(hs: seq<(seq<byte>, seq<byte>)>)
    requires forall h :: h in hs ==> IsName(h.0) && NoCr(h.1)
    ensures HeaderLines(hs) + CRLF == Block(Stored(hs)) && FieldsOk(Stored(hs))
  {
    hide FieldOk, Ascii;
    if hs != [] {
      assert hs[0] in hs;
      Literals();
      StoredBlock(hs[1..]);
      StoredOk(hs[0].0, hs[0].1);
      var line := hs[0].0 + Ascii(": ") + hs[0].1;
      assert (line + CRLF + HeaderLines(hs[1..])) + CRLF == line + CRLF + (HeaderLines(hs[1..]) + CRLF);
      assert Stored(hs)[1..] == Stored(hs[1..]);
    }
  }

  /** A line in front of a block, or none. */
  lemma InFront(on: bool, line: seq<byte>, lines: seq<seq<byte>>)
    requires FieldsOk(lines) && (on ==> FieldOk(line))
    ensures var all := (if on then [line] else []) + lines;
            Block(all) == (if on then line + CRLF else []) + Block(lines) && FieldsOk(all)
  {
    hide FieldOk;
    if on {
      assert ([line] + lines)[1..] == lines;
    } else {
      assert [] + lines == lines && [] + Block(lines) == Block(lines);
    }
  }

  /** What the writer puts out is the status line and the block of these lines. */
  lemma TextIsBlock(r: Response, status: seq<byte>, contentLength: seq<byte>)
    requires Clean(r, status, contentLength)
    ensures Concat(Items(r)) == status + CRLF + Block(Fields(r, contentLength)) && FieldsOk(Fields(r, contentLength))
  {
    hide FieldOk, Ascii, Block, HeaderLines, Stored, Concat, Items, FieldsOk, IsName;
    TextOfItems(r);
    Literals();
    StoredBlock(r.headers);
    FlagsOk();
    var close, chunked, three := Ascii("Connection: close"), Ascii("Transfer-encoding: chunked"), Stored(r.headers);
    InFront(r.hasContentLength, contentLength, three);
    var two := (if r.hasContentLength then [contentLength] else []) + three;
    InFront(r.chunked, chunked, two);
    var one := (if r.chunked then [chunked] else []) + two;
    InFront(r.connectionClose, close, one);
    assert Fields(r, contentLength) == (if r.connectionClose then [close] else []) + one;
    WithEnd();
    Rejoin(r.statusLine, if r.connectionClose then close + CRLF else [], if r.chunked then chunked + CRLF else [],
           if r.hasContentLength then contentLength + CRLF else [], HeaderLines(r.headers), CRLF);
  }

  lemma WithEnd()
    ensures Ascii("Connection: close\r\n") == Ascii("Connection: close") + CRLF
    ensures Ascii("Transfer-encoding: chunked\r\n") == Ascii("Transfer-encoding: chunked") + CRLF
  {
  }

  /** So the text of a header is read as its status line and then as exactly these lines,
      and what follows it stays. */
  lemma ReadsBack(cap: nat, r: Response, status: seq<byte>, contentLength: seq<byte>, after: seq<byte>)
    requires Clean(r, status, contentLength)
    ensures var c := Concat(Items(r)) + after;
            && FindLine(c) == At(|status|) && |c| >= |status| + 2 && c[..|status|] == status
            && LinesOf(cap, c[|status| + 2..]) == Lines(Completed, Fields(r, contentLength), after)
  {
    hide FindLine, Block, Fields, FieldsOk, LinesOf, Concat, Items;
    TextIsBlock(r, status, contentLength);
    var tail := Block(Fields(r, contentLength)) + after;
    assert Concat(Items(r)) + after == status + CRLF + tail;
    WholeLine(status, tail);
    ReadsBlock(cap, Fields(r, contentLength), after);
  }

  lemma {:induction false} OneEach(hs: seq<(seq<byte>, seq<byte>)>)
    ensures |Stored(hs)| == |hs|
  {
    if hs != [] {
      OneEach(hs[1..]);
    }
  }

  lemma HowMany(r: Response, contentLength: seq<byte>)
    ensures |Fields(r, contentLength)| ==
            |r.headers| + (if r.connectionClose then 1 else 0) + (if r.chunked then 1 else 0)
            + if r.hasContentLength then 1 else 0
  {
    hide Ascii, Stored;
    OneEach(r.headers);
  }

  /** A buffer that holds a message. */
  method Received(bytes: seq<byte>) returns (bf: BF)
    ensures bf.Valid() && fresh(bf) && fresh(bf.buf) && bf.Content() == bytes
  {
    bf := new BF(|bytes|);
    var _ := bf.Putn(bytes);
  }

  /** The status line and the headers of a message. */
  method ReadMessage(bf: BF) returns (st: Status, count: nat)
    requires bf.Valid()
    modifies bf`get, bf`put, bf.buf
    ensures bf.Valid()
    ensures var c := old(bf.Content());
            FindLine(c).At? ==>
              && CrlfAt(c, FindLine(c).k)
              && var r := LinesOf(bf.end - bf.start, c[FindLine(c).k + 2..]);
                 st == r.status && count == |r.taken| && bf.Content() == r.rest
  {
    hide LinesOf, FindLine;
    var parser := new ChunkParser();
    var len, at;
    st, len, at := parser.GetLine(bf);
    count := 0;
    if st == Completed {
      st, count := ReadHeaders(parser, bf);
    }
  }

  /** A response header is sent through a buffer that is emptied between calls, and read
      from another buffer: each flag that is set and each stored header makes one line. */
  method SendAndRead(
    response: Response, ghost status: seq<byte>, ghost contentLength: seq<byte>, after: seq<byte>, bf: BF)
    returns (ok: bool, st: Status, count: nat, received: BF)
    requires bf.Valid() && bf.get == bf.put == bf.start && Clean(response, status, contentLength)
    modifies bf`get, bf`put, bf.buf
    ensures ok <==> AllFit(Items(response), bf.end - bf.start)
    ensures received.Valid() && (ok ==> st == Completed && received.Content() == after)
    ensures ok ==> count == |response.headers| + (if response.connectionClose then 1 else 0)
                            + (if response.chunked then 1 else 0) + if response.hasContentLength then 1 else 0
  {
    hide LinesOf, Clean, AllFit, Items, Fields, FindLine, Ascii, Concat, BF.Content;
    var out, calls;
    ok, out, calls := SendItems(response, bf);
    st, count := Error, 0;
    received := Received(out + after);
    if ok {
      ReadsBack(received.end - received.start, response, status, contentLength, after);
      HowMany(response, contentLength);
      st, count := ReadMessage(received);
    }
  }
}
