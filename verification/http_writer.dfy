/** The resumable writer of a response header (hutils/http.c). */
module HttpWriter {
  import opened Bf
  import opened ChunkWire
  import opened Seqs

  datatype State = StatusLine | ConnectionClose | Chunked | ContentLength | Headers | Eof

  /** The lines that sprintf formats are given as bytes. */
  datatype Response = Response(
    statusLine: seq<byte>, connectionClose: bool, chunked: bool, hasContentLength: bool,
    contentLengthLine: seq<byte>, headers: seq<(seq<byte>, seq<byte>)>)

  function Ascii(s: string): (r: seq<byte>)
    ensures |r| == |s| && forall i :: 0 <= i < |s| && s[i] < 256 as char ==> r[i] == s[i] as int
  {
    seq(|s|, i requires 0 <= i < |s| => (s[i] as int) % 256)
  }

  const CONNECTION_CLOSE := Ascii("Connection: close") + CRLF
  const TRANSFER_CHUNKED := Ascii("Transfer-encoding: chunked") + CRLF
  const COLON := Ascii(": ")

  /** The lines of stored headers. */
  function HeaderLines(hs: seq<(seq<byte>, seq<byte>)>): seq<byte> {
    if hs == [] then [] else hs[0].0 + Ascii(": ") + hs[0].1 + Ascii("\r\n") + HeaderLines(hs[1..])
  }

  function HeaderItems(hs: seq<(seq<byte>, seq<byte>)>): seq<seq<byte>> {
    if hs == [] then [] else [hs[0].0, COLON, hs[0].1, CRLF] + HeaderItems(hs[1..])
  }

  function Flag(on: bool, item: seq<byte>): seq<seq<byte>> {
    if on then [item] else []
  }

  /** The parts of a response header in order: the reference for the writer. */
  function Items(r: Response): seq<seq<byte>> {
    [r.statusLine]
    + (Flag(r.connectionClose, CONNECTION_CLOSE)
       + (Flag(r.chunked, TRANSFER_CHUNKED)
          + (Flag(r.hasContentLength, r.contentLengthLine)
             + (HeaderItems(r.headers) + [CRLF]))))
  }

  /** The parts together: the line of each flag that is set, and no other. */
  lemma TextOfItems(r: Response)
    ensures Concat(Items(r)) ==
            r.statusLine
            + (if r.connectionClose then Ascii("Connection: close\r\n") else [])
            + (if r.chunked then Ascii("Transfer-encoding: chunked\r\n") else [])
            + (if r.hasContentLength then r.contentLengthLine else [])
            + HeaderLines(r.headers) + Ascii("\r\n")
  {
    hide Concat, HeaderItems, HeaderLines, Flag, Ascii;
    var a, b, c, d := Flag(r.connectionClose, CONNECTION_CLOSE), Flag(r.chunked, TRANSFER_CHUNKED),
        Flag(r.hasContentLength, r.contentLengthLine), HeaderItems(r.headers) + [CRLF];
    ConcatAppend([r.statusLine], a + (b + (c + d)));
    ConcatAppend(a, b + (c + d));
    ConcatAppend(b, c + d);
    ConcatAppend(c, d);
    ConcatAppend(HeaderItems(r.headers), [CRLF]);
    ConcatOne(r.statusLine);
    ConcatOne(CRLF);
    TextOfFlag(r.connectionClose, CONNECTION_CLOSE);
    TextOfFlag(r.chunked, TRANSFER_CHUNKED);
    TextOfFlag(r.hasContentLength, r.contentLengthLine);
    TextOfHeaders(r.headers);
    Literals();
    Rejoin(r.statusLine, Concat(a), Concat(b), Concat(c), HeaderLines(r.headers), CRLF);
  }

  lemma Rejoin(a: seq<byte>, b: seq<byte>, c: seq<byte>, d: seq<byte>, e: seq<byte>, f: seq<byte>)
    ensures a + (b + (c + (d + (e + f)))) == a + b + c + d + e + f
  {
  }

  lemma Literals()
    ensures CONNECTION_CLOSE == Ascii("Connection: close\r\n")
    ensures TRANSFER_CHUNKED == Ascii("Transfer-encoding: chunked\r\n")
    ensures CRLF == Ascii("\r\n") && COLON == Ascii(": ")
  {
  }

  lemma TextOfFlag(on: bool, item: seq<byte>)
    ensures Concat(Flag(on, item)) == if on then item else []
  {
    ConcatOne(item);
  }

  lemma {:induction false} TextOfHeaders(hs: seq<(seq<byte>, seq<byte>)>)
    ensures Concat(HeaderItems(hs)) == HeaderLines(hs)
  {
    if hs != [] {
      Literals();
      TextOfHeaders(hs[1..]);
      ConcatAppend([hs[0].0, COLON, hs[0].1, CRLF], HeaderItems(hs[1..]));
      FourParts(hs[0].0, COLON, hs[0].1, CRLF);
    }
  }

  lemma FourParts(a: seq<byte>, b: seq<byte>, c: seq<byte>, d: seq<byte>)
    ensures Concat([a, b, c, d]) == a + b + c + d
  {
    hide Concat;
    ConcatAppend([a, b, c], [d]);
    ConcatAppend([a, b], [c]);
    ConcatAppend([a], [b]);
    ConcatOne(a);
    ConcatOne(b);
    ConcatOne(c);
    ConcatOne(d);
    assert [a, b, c, d] == [a, b, c] + [d] && [a, b, c] == [a, b] + [c] && [a, b] == [a] + [b];
  }

  /** Where the writer stands: header is the index of the current stored header,
      part says which of its four parts comes next. */
  datatype Position = Position(state: State, header: nat, part: nat)

  predicate InRange(r: Response, p: Position) {
    p.state == Headers ==>
      p.header <= |r.headers| && p.part <= 3 && (p.header == |r.headers| ==> p.part == 0)
  }

  /** The item that is due at a position, if any. */
  function Due(r: Response, p: Position): seq<seq<byte>>
    requires InRange(r, p)
  {
    match p.state
    case StatusLine => [r.statusLine]
    case ConnectionClose => Flag(r.connectionClose, CONNECTION_CLOSE)
    case Chunked => Flag(r.chunked, TRANSFER_CHUNKED)
    case ContentLength => Flag(r.hasContentLength, r.contentLengthLine)
    case Headers =>
      if p.header == |r.headers| then []
      else [[r.headers[p.header].0, COLON, r.headers[p.header].1, CRLF][p.part]]
    case Eof => [CRLF]
  }

  /** The position after the due item. */
  function Next(r: Response, p: Position): (p': Position)
    requires InRange(r, p)
    ensures InRange(r, p')
  {
    match p.state
    case StatusLine => p.(state := ConnectionClose)
    case ConnectionClose => p.(state := Chunked)
    case Chunked => p.(state := ContentLength)
    case ContentLength => Position(Headers, 0, 0)
    case Headers =>
      if p.header == |r.headers| then p.(state := Eof)
      else if p.part < 3 then p.(part := p.part + 1)
      else Position(Headers, p.header + 1, 0)
    case Eof => p
  }

  /** The items from a position on, by the order of the reference. */
  function Remaining(r: Response, p: Position): seq<seq<byte>>
    requires InRange(r, p)
  {
    var headers := HeaderItems(r.headers) + [CRLF];
    var fromLength := Flag(r.hasContentLength, r.contentLengthLine) + headers;
    var fromChunked := Flag(r.chunked, TRANSFER_CHUNKED) + fromLength;
    var fromClose := Flag(r.connectionClose, CONNECTION_CLOSE) + fromChunked;
    match p.state
    case StatusLine => [r.statusLine] + fromClose
    case ConnectionClose => fromClose
    case Chunked => fromChunked
    case ContentLength => fromLength
    case Headers =>
      PartsOfHeader(r.headers[p.header..]);
      HeaderItems(r.headers[p.header..])[p.part..] + [CRLF]
    case Eof => [CRLF]
  }

  lemma PartsOfHeader(hs: seq<(seq<byte>, seq<byte>)>)
    ensures hs != [] ==> 4 <= |HeaderItems(hs)|
  {
  }

  /** No item is lost or repeated between a position and the next one. */
  lemma DueThenNext(r: Response, p: Position)
    requires InRange(r, p)
    ensures p.state != Eof ==> Remaining(r, p) == Due(r, p) + Remaining(r, Next(r, p))
    ensures p.state == Eof ==> Remaining(r, p) == Due(r, p)
  {
    hide HeaderItems;
    if p.state == ContentLength {
      assert r.headers[0..] == r.headers;
      assert HeaderItems(r.headers)[0..] == HeaderItems(r.headers);
    }
    if p.state == Headers {
      if p.header < |r.headers| {
        DueOfHeader(r.headers, p.header, p.part);
      } else {
        NoHeaders(r.headers[p.header..]);
      }
    }
  }

  lemma NoHeaders(hs: seq<(seq<byte>, seq<byte>)>)
    requires hs == []
    ensures HeaderItems(hs) == []
  {
  }

  /** One part of a header and the parts after it. */
  lemma DueOfHeader(headers: seq<(seq<byte>, seq<byte>)>, i: nat, part: nat)
    requires i < |headers| && part < 4
    ensures var items, four := HeaderItems(headers[i..]), [headers[i].0, COLON, headers[i].1, CRLF];
            && 4 <= |items| && items[part..] == [four[part]] + items[part + 1..]
            && items[4..] == HeaderItems(headers[i + 1..]) == HeaderItems(headers[i + 1..])[0..]
  {
    assert headers[i..][1..] == headers[i + 1..];
    var items, four := HeaderItems(headers[i..]), [headers[i].0, COLON, headers[i].1, CRLF];
    assert items == four + HeaderItems(headers[i + 1..]);
    assert items[part] == four[part];
  }

  class Writer {
    const response: Response
    var state: State
    var headerPosition: nat
    var stateHeader: nat

    constructor (response: Response)
      ensures this.response == response && Valid()
      ensures Remaining(response, At()) == Items(response)
    {
      this.response := response;
      state, headerPosition, stateHeader := StatusLine, 0, 0;
    }

    ghost function At(): Position
      reads this
    {
      Position(state, headerPosition, stateHeader)
    }

    ghost predicate Valid()
      reads this
    {
      InRange(response, At())
    }

    /** The writer put the due item and moved on, or left all as it was because the
        item does not fit. */
    twostate predicate Stepped(bf: BF, rc: int)
      requires old(bf.Valid() && Valid()) && bf.Valid()
      reads this, bf, bf.buf
    {
      var due := Due(response, old(At()));
      if due != [] && |due[0]| > old(bf.end - bf.put) then
        rc == -1 && At() == old(At()) && bf.Content() == old(bf.Content()) && bf.put == old(bf.put)
      else rc == 0 && At() == Next(response, old(At())) && bf.Content() == old(bf.Content()) + Concat(due)
    }

    /** BF_putn of one item. */
    method PutItem(bf: BF, item: seq<byte>) returns (rc: int)
      requires bf.Valid()
      modifies bf`put, bf.buf
      ensures bf.Valid()
      ensures if |item| > old(bf.end - bf.put) then
                rc == -1 && bf.Content() == old(bf.Content()) && bf.put == old(bf.put)
              else rc == 0 && bf.Content() == old(bf.Content()) + Concat([item])
    {
      ConcatOne(item);
      rc := bf.Putn(item);
      assert rc == -1 ==> bf.Content() == old(bf.Content());
    }

    /** One case of the writer's switch. */
    method Step(bf: BF) returns (rc: int)
      requires Valid() && bf.Valid()
      modifies this`state, this`headerPosition, this`stateHeader, bf`put, bf.buf
      ensures Valid() && bf.Valid() && Stepped(bf, rc)
    {
      hide Concat;
      assert Concat<byte>([]) == [] by {
        NoItems();
      }
      rc := 0;
      match state {
        case StatusLine =>
          rc := PutItem(bf, response.statusLine);
          if rc == 0 {
            state := ConnectionClose;
          }
        case ConnectionClose =>
          if response.connectionClose {
            rc := PutItem(bf, CONNECTION_CLOSE);
          }
          if rc == 0 {
            state := Chunked;
          }
        case Chunked =>
          if response.chunked {
            rc := PutItem(bf, TRANSFER_CHUNKED);
          }
          if rc == 0 {
            state := ContentLength;
          }
        case ContentLength =>
          if response.hasContentLength {
            rc := PutItem(bf, response.contentLengthLine);
          }
          if rc == 0 {
            state, headerPosition, stateHeader := Headers, 0, 0;
          }
        case Headers => rc := StepHeader(bf);
        case Eof => rc := PutItem(bf, CRLF);
      }
    }

    method StepHeader(bf: BF) returns (rc: int)
      requires Valid() && bf.Valid() && state == Headers
      modifies this`state, this`headerPosition, this`stateHeader, bf`put, bf.buf
      ensures Valid() && bf.Valid() && Stepped(bf, rc)
    {
      hide Concat;
      assert Concat<byte>([]) == [] by {
        NoItems();
      }
      if headerPosition == |response.headers| {
        state := Eof;
        return 0;
      }
      var header := response.headers[headerPosition];
      match stateHeader {
        case 0 => rc := PutItem(bf, header.0);
        case 1 => rc := PutItem(bf, COLON);
        case 2 => rc := PutItem(bf, header.1);
        case _ => rc := PutItem(bf, CRLF);
      }
      if rc == 0 {
        if stateHeader < 3 {
          stateHeader := stateHeader + 1;
        } else {
          headerPosition, stateHeader := headerPosition + 1, 0;
        }
      }
    }

    /** HTTP_RESPONSE_WRITER_write: goes on until an item does not fit or all is
        written.  done are the items of this call. */
    method Write(bf: BF) returns (st: Status, ghost done: seq<seq<byte>>)
      requires Valid() && bf.Valid()
      modifies this`state, this`headerPosition, this`stateHeader, bf`put, bf.buf
      ensures Valid() && bf.Valid()
      ensures bf.Content() == old(bf.Content()) + Concat(done)
      ensures st == Completed ==> done == old(Remaining(response, At())) && At().state == Eof
      ensures st != Completed ==>
                && old(Remaining(response, At())) == done + Remaining(response, At())
                && Due(response, At()) != [] && |Due(response, At())[0]| > bf.end - bf.put
      ensures st == Completed || st == (if bf.start == bf.put then Error else NeedMoreData)
    {
      hide Concat, Remaining, Due;
      done := [];
      NoItems();
      var rc := 0;
      while true
        invariant Valid() && bf.Valid()
        invariant old(Remaining(response, At())) == done + Remaining(response, At())
        invariant bf.Content() == old(bf.Content()) + Concat(done)
        decreases Left(response, At())
      {
        ghost var p := At();
        var last := state == Eof;
        DueThenNext(response, p);
        LeftNext(response, p);
        rc := Step(bf);
        if rc != 0 {
          st := if bf.start == bf.put then Error else NeedMoreData;
          return;
        }
        ConcatAppend(done, Due(response, p));
        Assoc(done, Due(response, p), Remaining(response, Next(response, p)));
        done := done + Due(response, p);
        if last {
          return Completed, done;
        }
      }
    }
  }

  lemma Assoc(a: seq<seq<byte>>, b: seq<seq<byte>>, c: seq<seq<byte>>)
    ensures a + (b + c) == (a + b) + c
  {
  }

  lemma NoItems()
    ensures Concat<byte>([]) == []
  {
  }

  /** How many positions are still ahead. */
  function Left(r: Response, p: Position): nat
    requires InRange(r, p)
  {
    var headers := 4 * |r.headers| + 2;
    match p.state
    case StatusLine => headers + 4
    case ConnectionClose => headers + 3
    case Chunked => headers + 2
    case ContentLength => headers + 1
    case Headers => 4 * (|r.headers| - p.header) + 2 - p.part
    case Eof => 1
  }

  lemma LeftNext(r: Response, p: Position)
    requires InRange(r, p)
    ensures p.state != Eof ==> Left(r, Next(r, p)) < Left(r, p)
  {
  }

  lemma {:induction false} ItemBound(items: seq<seq<byte>>, item: seq<byte>)
    requires item in items
    ensures |item| <= |Concat(items)|
  {
    if item != items[0] {
      ItemBound(items[1..], item);
    }
  }

  lemma SomethingLeft(r: Response, p: Position)
    requires InRange(r, p)
    ensures Remaining(r, p) != []
    ensures Due(r, p) != [] ==> Due(r, p)[0] in Remaining(r, p)
  {
    DueThenNext(r, p);
  }

  /** Sends the header through a buffer that is emptied after each call.  All of it
      arrives, each part once and in order, exactly when every part fits the
      buffer; there are no more calls than parts. */
  method SendItems(response: Response, bf: BF) returns (ok: bool, out: seq<byte>, calls: nat)
    requires bf.Valid() && bf.get == bf.put == bf.start
    modifies bf`get, bf`put, bf.buf
    ensures ok <==> AllFit(Items(response), bf.end - bf.start)
    ensures ok ==> out == Concat(Items(response)) && calls <= |Items(response)|
  {
    hide Concat, Remaining, Due, Items, InRange, AllFit;
    var w := new Writer(response);
    out, calls := [], 0;
    NoItems();
    ghost var room := bf.end - bf.start;
    ghost var written: seq<seq<byte>> := [];
    AllFitAppend([], [], room);
    while true
      invariant fresh(w) && w.Valid() && w.response == response
      invariant bf.Valid() && bf.get == bf.put == bf.start && room == bf.end - bf.start
      invariant Items(response) == written + Remaining(response, w.At())
      invariant out == Concat(written) && calls <= |written|
      invariant AllFit(written, room)
      decreases |Remaining(response, w.At())|
    {
      ghost var rest := Remaining(response, w.At());
      SomethingLeft(response, w.At());
      assert bf.Content() == [];
      var st, done := w.Write(bf);
      out := out + bf.buf[bf.get..bf.put];
      calls := calls + 1;
      AllFitBound(done, room);
      AllFitAppend(written, done, room);
      ConcatAppend(written, done);
      if st == Completed {
        return true, out, calls;
      }
      if st == Error {
        SomethingLeft(response, w.At());
        TooLong(written + done, Remaining(response, w.At()), Due(response, w.At())[0], room);
        Assoc(written, done, Remaining(response, w.At()));
        return false, out, calls;
      }
      assert done != [];
      Assoc(written, done, Remaining(response, w.At()));
      written := written + done;
      bf.PutMode();
    }
  }

  /** What arrives: the line of each flag that is set and no other, the stored headers in
      order, and the empty line. */
  method SendHeader(response: Response, bf: BF) returns (ok: bool, out: seq<byte>, calls: nat)
    requires bf.Valid() && bf.get == bf.put == bf.start
    modifies bf`get, bf`put, bf.buf
    ensures ok <==> AllFit(Items(response), bf.end - bf.start)
    ensures ok ==> calls <= |Items(response)|
    ensures ok ==> out ==
                   response.statusLine
                   + (if response.connectionClose then Ascii("Connection: close\r\n") else [])
                   + (if response.chunked then Ascii("Transfer-encoding: chunked\r\n") else [])
                   + (if response.hasContentLength then response.contentLengthLine else [])
                   + HeaderLines(response.headers) + Ascii("\r\n")
  {
    hide Concat, Items, AllFit, Ascii, HeaderLines;
    ok, out, calls := SendItems(response, bf);
    TextOfItems(response);
  }

  lemma TooLong(written: seq<seq<byte>>, rest: seq<seq<byte>>, item: seq<byte>, room: int)
    requires item in rest && |item| > room
    ensures !AllFit(written + rest, room)
  {
    assert item in written + rest;
  }

  /** Every item fits. */
  ghost predicate AllFit(items: seq<seq<byte>>, room: int) {
    forall item :: item in items ==> |item| <= room
  }

  lemma AllFitAppend(a: seq<seq<byte>>, b: seq<seq<byte>>, room: int)
    ensures (AllFit(a, room) && AllFit(b, room)) ==> AllFit(a + b, room)
    ensures AllFit([], room)
  {
  }

  lemma AllFitBound(items: seq<seq<byte>>, room: int)
    requires |Concat(items)| <= room
    ensures AllFit(items, room)
  {
    forall item | item in items
      ensures |item| <= room
    {
      ItemBound(items, item);
    }
  }
}
