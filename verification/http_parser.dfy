/** The resumable body parser of hutils/http.c, working in place on a buffer. */
module HttpParser {
  import opened Bf
  import opened ChunkWire
  import opened ChunkRoundTrip
  import opened Seqs

  /** Where the digits of a header line stand in the block. */
  lemma SizePlace(b: seq<byte>, at: nat, len: nat, pos: nat, cur: nat)
    requires at <= pos <= cur <= at + len <= |b|
    requires pos == at + SkipSpaces(b[at..at + len]) && cur == pos + HexRun(b[pos..at + len])
    ensures Strtol(b[pos..cur]) == ChunkSize(b[at..at + len])
  {
    hide Strtol, SkipSpaces, HexRun;
    var line := b[at..at + len];
    assert line[pos - at..] == b[pos..at + len];
    assert b[pos..at + len][..cur - pos] == b[pos..cur];
  }

  /** A zero byte in front of a range does not change it. */
  lemma ZeroBefore(b: seq<byte>, cur: nat, get: nat, put: nat)
    requires cur < get <= put <= |b|
    ensures b[cur := 0][get..put] == b[get..put]
  {
  }

  class ChunkParser {
    var state: State
    var contentLeft: nat
    /** What the message callback was given so far. */
    var delivered: seq<byte>

    constructor ()
      ensures state == Header && contentLeft == 0 && delivered == []
    {
      state, contentLeft, delivered := Header, 0, [];
    }

    ghost function Spec(): Parser
      reads this
    {
      Parser(state, contentLeft)
    }

    method ScanSpaces(bf: BF, at: nat, len: nat) returns (pos: nat)
      requires at + len < bf.buf.Length && bf.buf[at + len] == 0
      ensures pos == at + SkipSpaces(bf.buf[at..at + len]) <= at + len
    {
      ghost var line := bf.buf[at..at + len];
      pos := at;
      while IsSpace(bf.buf[pos])
        invariant at <= pos <= at + len
        invariant SkipSpaces(line) == pos - at + SkipSpaces(line[pos - at..])
        decreases at + len - pos
      {
        assert line[pos - at..][1..] == line[pos - at + 1..];
        pos := pos + 1;
      }
    }

    method ScanHex(bf: BF, at: nat, len: nat) returns (cur: nat)
      requires at + len < bf.buf.Length && bf.buf[at + len] == 0
      ensures cur == at + HexRun(bf.buf[at..at + len]) <= at + len
    {
      ghost var s := bf.buf[at..at + len];
      cur := at;
      while IsHex(bf.buf[cur])
        invariant at <= cur <= at + len
        invariant HexRun(s) == cur - at + HexRun(s[cur - at..])
        decreases at + len - cur
      {
        assert s[cur - at..][1..] == s[cur - at + 1..];
        cur := cur + 1;
      }
    }

    /** The end of a header name. */
    method ScanToken(bf: BF, at: nat, len: nat) returns (pos: nat)
      requires at + len < bf.buf.Length && bf.buf[at + len] == 0
      ensures pos == at + TokenEnd(bf.buf[at..at + len]) <= at + len
    {
      ghost var line := bf.buf[at..at + len];
      pos := at;
      while !IsCtlOrSpace(bf.buf[pos]) && bf.buf[pos] != 58
        invariant at <= pos <= at + len
        invariant TokenEnd(line) == pos - at + TokenEnd(line[pos - at..])
        decreases at + len - pos
      {
        assert line[pos - at..][1..] == line[pos - at + 1..];
        pos := pos + 1;
      }
    }

    /** Scans the spaces and the digits of a header line in place, ends the digits
        with a zero byte and converts them. */
    method ReadChunkSize(bf: BF, at: nat, len: nat) returns (val: nat)
      requires bf.Valid() && at + len < bf.get && bf.buf[at + len] == 0
      modifies bf.buf
      ensures val == ChunkSize(old(bf.buf[at..at + len]))
      ensures bf.Content() == old(bf.Content())
    {
      hide Strtol, SkipSpaces, HexRun, ChunkSize;
      ghost var b := bf.buf[..];
      var pos := ScanSpaces(bf, at, len);
      var cur := ScanHex(bf, pos, at + len - pos);
      assert bf.buf[at..at + len] == b[at..at + len] && bf.buf[pos..at + len] == b[pos..at + len];
      SizePlace(b, at, len, pos, cur);
      val := Strtol(bf.buf[pos..cur]);
      assert bf.buf[pos..cur] == b[pos..cur];
      bf.buf[cur] := 0;
      assert bf.buf[..] == b[cur := 0];
      ZeroBefore(b, cur, bf.get, bf.put);
      assert bf.buf[bf.get..bf.put] == bf.buf[..][bf.get..bf.put];
    }

    /** HTTP_get_line. */
    method GetLine(bf: BF) returns (st: Status, len: nat, at: nat)
      requires bf.Valid()
      modifies bf`get, bf`put, bf.buf
      ensures bf.Valid()
      ensures var c := old(bf.Content());
              match FindLine(c)
              case At(k) =>
                && CrlfAt(c, k) && st == Completed && len == k && bf.Content() == c[k + 2..]
                && at + k < bf.buf.Length && bf.buf[at..at + k] == c[..k] && bf.buf[at + k] == 0
              case NoLine => st == (if |c| == bf.end - bf.start then Error else NeedMoreData) && bf.Content() == c
              case Overrun => st == Unspecified && bf.Content() == c
    {
      var r;
      r, at := bf.GetLineExt();
      len := 0;
      match r {
        case At(k) =>
          len := k;
          return Completed, len, at;
        case NoLine =>
          if bf.IsFull() {
            return Error, len, at;
          }
          var _ := bf.Compact();
          return NeedMoreData, len, at;
        case Overrun =>
          return Unspecified, len, at;
      }
    }

    /** HTTP_parse_header_line, up to the storing of the header. */
    method ParseHeaderLine(bf: BF) returns (st: Status, eofHeader: bool)
      requires bf.Valid()
      modifies bf`get, bf`put, bf.buf
      ensures bf.Valid()
      ensures var c := old(bf.Content());
              match FindLine(c)
              case At(k) =>
                && CrlfAt(c, k) && bf.Content() == c[k + 2..]
                && eofHeader == (k == 0 || c[0] == 0)
                && st == (if eofHeader || HeaderLineOk(c[..k]) then Completed else Error)
              case NoLine => st == (if |c| == bf.end - bf.start then Error else NeedMoreData) && bf.Content() == c
              case Overrun => st == Unspecified && bf.Content() == c
    {
      hide FindLine, TokenEnd;
      var len, at;
      st, len, at := GetLine(bf);
      eofHeader := false;
      if st != Completed {
        return;
      }
      ghost var line := bf.buf[at..at + len];
      assert line == old(bf.Content())[..len];
      assert len > 0 ==> bf.buf[at] == line[0] == old(bf.Content())[0];
      if bf.buf[at] == 0 {
        eofHeader := true;
        return;
      }
      if IsSpace(bf.buf[at]) {
        st := Error;
        return;
      }
      var pos := ScanToken(bf, at, len);
      assert pos < at + len ==> bf.buf[pos] == line[pos - at];
      if bf.buf[pos] != 58 {
        st := Error;
      }
    }

    /** HTTP_PARSER_content_length_process: delivers what is there, but no more than
        what is left of the announced length. */
    method ContentLengthProcess(bf: BF) returns (st: Status)
      requires bf.Valid()
      modifies this, bf`get, bf`put, bf.buf
      ensures bf.Valid()
      ensures var c := old(bf.Content());
              var n := old(contentLeft);
              if c == [] then st == NeedMoreData && bf.Content() == c && unchanged(this)
              else if n == 0 then st == Error && bf.Content() == c && unchanged(this)
              else if |c| < n then
                && st == NeedMoreData && bf.Content() == [] && delivered == old(delivered) + c
                && contentLeft == n - |c| && state == old(state)
              else
                && st == Completed && bf.Content() == c[n..] && delivered == old(delivered) + c[..n]
                && contentLeft == 0 && state == RequestLine
    {
      var available := bf.GetSize();
      if available == 0 {
        return NeedMoreData;
      }
      var take := contentLeft;
      if take == 0 {
        return Error;
      }
      if available < take {
        take := available;
      }
      assert bf.buf[bf.get..bf.get + take] == bf.Content()[..take];
      delivered := delivered + bf.buf[bf.get..bf.get + take];
      contentLeft := contentLeft - take;
      bf.get := bf.get + take;
      assert bf.Content() == old(bf.Content())[take..];
      if contentLeft == 0 {
        state := RequestLine;
        return Completed;
      }
      var _ := bf.Compact();
      return NeedMoreData;
    }

    /** The parser did the turn t. */
    twostate predicate Did(t: Turn, bf: BF, done: bool, st: Status)
      requires bf.Valid()
      reads this, bf, bf.buf
    {
      match t
      case Stop(o) =>
        done && st == o.status && Spec() == o.parser && bf.Content() == o.rest && delivered == old(delivered) + o.body
      case Go(p, rest, body) =>
        !done && Spec() == p && bf.Content() == rest && delivered == old(delivered) + body
    }

    method HeaderTurn(bf: BF) returns (done: bool, st: Status)
      requires bf.Valid()
      modifies this, bf`get, bf`put, bf.buf
      ensures bf.Valid()
      ensures Did(ChunkWire.HeaderTurn(old(Spec()), old(bf.Content())), bf, done, st)
    {
      hide FindLine, ChunkSize;
      var r, at := bf.GetLineExt();
      match r {
        case At(k) =>
          var val := ReadChunkSize(bf, at, k);
          if val != 0 {
            contentLeft := val;
            state := Data;
          } else {
            state := Trailer;
          }
          return false, NeedMoreData;
        case NoLine =>
          var _ := bf.Compact();
          return true, NeedMoreData;
        case Overrun =>
          return true, Unspecified;
      }
    }

    method EofTurn(bf: BF) returns (done: bool, st: Status)
      requires bf.Valid()
      modifies this, bf`get, bf`put, bf.buf
      ensures bf.Valid()
      ensures Did(ChunkWire.EofTurn(old(Spec()), old(bf.Content())), bf, done, st)
    {
      var r, _ := bf.GetLineExt();
      match r {
        case At(k) =>
          state := Header;
          return false, NeedMoreData;
        case NoLine =>
          var _ := bf.Compact();
          return true, NeedMoreData;
        case Overrun =>
          return true, Unspecified;
      }
    }

    method DataTurn(bf: BF) returns (done: bool, st: Status)
      requires bf.Valid()
      modifies this, bf`get, bf`put, bf.buf
      ensures bf.Valid()
      ensures state == old(state) || state == EofAfterData
      ensures old(state) == Data ==> Did(ChunkWire.DataTurn(old(Spec()), old(bf.Content())), bf, done, st)
    {
      st := ContentLengthProcess(bf);
      done := st != Completed;
      if !done {
        state := EofAfterData;
      }
    }

    method TrailerTurn(bf: BF) returns (st: Status)
      requires bf.Valid()
      modifies this, bf`get, bf`put, bf.buf
      ensures bf.Valid()
      ensures Did(Stop(ChunkWire.TrailerTurn(bf.end - bf.start, old(Spec()), old(bf.Content()))), bf, true, st)
    {
      var eofHeader;
      st, eofHeader := ParseHeaderLine(bf);
      if st != Completed {
        return;
      }
      if eofHeader {
        var _ := bf.Compact();
        return;
      }
      return NeedMoreData;
    }

    /** The switch of HTTP_PARSER_chunked_data_process. */
    method Turn(bf: BF) returns (done: bool, st: Status)
      requires bf.Valid()
      modifies this, bf`get, bf`put, bf.buf
      ensures bf.Valid()
      ensures Did(TurnOf(bf.end - bf.start, old(Spec()), old(bf.Content())), bf, done, st)
    {
      match state {
        case Header => done, st := HeaderTurn(bf);
        case Data => done, st := DataTurn(bf);
        case EofAfterData => done, st := EofTurn(bf);
        case Trailer =>
          st := TrailerTurn(bf);
          done := true;
        case RequestLine => done, st := true, Error;
      }
    }

    /** HTTP_PARSER_chunked_data_process: each jump between two states is a turn of
        the loop.  It computes the function Process on the buffer content. */
    method ChunkedDataProcess(bf: BF) returns (st: Status, ghost o: Outcome)
      requires bf.Valid()
      modifies this, bf`get, bf`put, bf.buf
      ensures bf.Valid()
      ensures o == Process(bf.end - bf.start, old(Spec()), old(bf.Content()))
      ensures st == o.status && Spec() == o.parser && bf.Content() == o.rest
      ensures delivered == old(delivered) + o.body
    {
      hide TurnOf, Leads;
      ghost var cap := bf.end - bf.start;
      o := Process(cap, Spec(), bf.Content());
      ghost var total := delivered + o.body;
      LeadsAll(cap, Spec(), bf.Content(), delivered);
      var done := false;
      st := NeedMoreData;
      while !done
        invariant bf.Valid() && bf.end - bf.start == cap
        invariant done ==> o == Outcome(st, Spec(), bf.Content(), o.body) && delivered == total
        invariant !done ==> Leads(cap, Spec(), bf.Content(), delivered, o, total)
        decreases !done, |bf.Content()|
      {
        ghost var p, c, d := Spec(), bf.Content(), delivered;
        done, st := Turn(bf);
        LeadsOn(cap, p, c, d, o, total);
      }
    }
  }

  /** The call that stands at p with content c and d delivered ends like o, with
      total delivered. */
  ghost predicate Leads(cap: nat, p: Parser, c: seq<byte>, d: seq<byte>, o: Outcome, total: seq<byte>) {
    var r := Process(cap, p, c);
    o == r.(body := o.body) && total == d + r.body
  }

  lemma LeadsAll(cap: nat, p: Parser, c: seq<byte>, d: seq<byte>)
    ensures var o := Process(cap, p, c); Leads(cap, p, c, d, o, d + o.body)
  {
  }

  lemma LeadsOn(cap: nat, p: Parser, c: seq<byte>, d: seq<byte>, o: Outcome, total: seq<byte>)
    requires Leads(cap, p, c, d, o, total)
    ensures match TurnOf(cap, p, c)
            case Stop(o') => o == o'.(body := o.body) && total == d + o'.body
            case Go(p', rest, body) => |rest| < |c| && Leads(cap, p', rest, d + body, o, total)
  {
    match TurnOf(cap, p, c)
    case Stop(_) =>
    case Go(p', rest, body) =>
      var r := Process(cap, p', rest);
      assert d + (body + r.body) == (d + body) + r.body;
  }

  // ----- the whole reception -----

  /** How a reception ends.  Done says that the body is complete, Short that all
      arrivals are used up, NoRoom that an arrival does not fit. */
  datatype Verdict = Done | Short | Broken | NoRoom

  ghost function VerdictOf(r: Reception): Verdict {
    match r
    case Finished(_, _, _) => Done
    case Pending(_, _, _) => Short
    case Failed(_) => Broken
    case Overflow(_) => NoRoom
  }

  /** The request and the response parser put what arrived into the buffer and call the
      machine.  When it needs more data they compact the buffer; the machine itself
      does so in some of its states only. */
  method Arrive(parser: ChunkParser, bf: BF, a: seq<byte>) returns (fits: bool, st: Status, ghost o: Outcome)
    requires bf.Valid() && bf.get == bf.start
    modifies parser, bf`get, bf`put, bf.buf
    ensures bf.Valid()
    ensures fits <==> |old(bf.Content())| + |a| <= bf.end - bf.start
    ensures !fits ==> unchanged(parser)
    ensures fits ==>
              && o == Process(bf.end - bf.start, old(parser.Spec()), old(bf.Content()) + a)
              && st == o.status && parser.Spec() == o.parser && bf.Content() == o.rest
              && parser.delivered == old(parser.delivered) + o.body
    ensures fits && st == NeedMoreData ==> bf.get == bf.start
  {
    hide TurnOf;
    st, o := NeedMoreData, Outcome(NeedMoreData, parser.Spec(), [], []);
    var rc := bf.Putn(a);
    fits := rc == 0;
    if fits {
      st, o := parser.ChunkedDataProcess(bf);
      if st == NeedMoreData {
        var _ := bf.Compact();
      }
    }
  }

  method ReceiveAll(parser: ChunkParser, bf: BF, arrivals: seq<seq<byte>>)
    returns (v: Verdict, used: nat, ghost r: Reception)
    requires bf.Valid() && bf.get == bf.start
    modifies parser, bf`get, bf`put, bf.buf
    ensures bf.Valid() && used <= |arrivals|
    ensures r == Receive(bf.end - bf.start, old(parser.Spec()), old(bf.Content()), arrivals)
    ensures v == VerdictOf(r) && parser.delivered == old(parser.delivered) + r.body
    ensures v.Done? ==> bf.Content() == r.rest && arrivals[used..] == r.left
  {
    hide TurnOf;
    ghost var cap := bf.end - bf.start;
    r := Receive(cap, parser.Spec(), bf.Content(), arrivals);
    ghost var total := parser.delivered + r.body;
    used := 0;
    while used < |arrivals|
      invariant bf.Valid() && bf.end - bf.start == cap && bf.get == bf.start && used <= |arrivals|
      invariant Awaits(cap, parser.Spec(), bf.Content(), arrivals[used..], parser.delivered, r, total)
    {
      ghost var p, c, d := parser.Spec(), bf.Content(), parser.delivered;
      var fits, st, o := Arrive(parser, bf, arrivals[used]);
      AwaitsOne(cap, p, c, arrivals, used, d, r, total);
      if !fits {
        return NoRoom, used, r;
      }
      AwaitsOn(cap, p, c, arrivals, used, d, r, total, o);
      used := used + 1;
      if st == Completed {
        return Done, used, r;
      }
      if st != NeedMoreData {
        return Broken, used, r;
      }
    }
    return Short, used, r;
  }

  /** The reception that stands at p with content c, the arrivals as' to come and d
      delivered ends like r, with total delivered. */
  ghost predicate Awaits(
    cap: nat, p: Parser, c: seq<byte>, as': seq<seq<byte>>, d: seq<byte>, r: Reception, total: seq<byte>)
  {
    var x := Receive(cap, p, c, as');
    r == x.(body := r.body) && total == d + x.body
  }

  lemma AwaitsOne(
    cap: nat, p: Parser, c: seq<byte>, arrivals: seq<seq<byte>>, used: nat, d: seq<byte>, r: Reception,
    total: seq<byte>)
    requires used < |arrivals| && Awaits(cap, p, c, arrivals[used..], d, r, total)
    ensures |c| + |arrivals[used]| > cap ==> r == Overflow(r.body) && total == d
  {
    assert arrivals[used..][0] == arrivals[used];
    assert d + [] == d;
  }

  lemma AwaitsOn(
    cap: nat, p: Parser, c: seq<byte>, arrivals: seq<seq<byte>>, used: nat, d: seq<byte>, r: Reception,
    total: seq<byte>, o: Outcome)
    requires used < |arrivals| && Awaits(cap, p, c, arrivals[used..], d, r, total)
    requires |c| + |arrivals[used]| <= cap && o == Process(cap, p, c + arrivals[used])
    ensures match o.status
            case Completed => r == Finished(r.body, o.rest, arrivals[used + 1..]) && total == d + o.body
            case NeedMoreData => Awaits(cap, o.parser, o.rest, arrivals[used + 1..], d + o.body, r, total)
            case _ => r == Failed(r.body) && total == d + o.body
  {
    assert arrivals[used..][1..] == arrivals[used + 1..];
    assert arrivals[used..][0] == arrivals[used];
    if o.status == NeedMoreData {
      var x := Receive(cap, o.parser, o.rest, arrivals[used + 1..]);
      assert d + (o.body + x.body) == (d + o.body) + x.body;
    }
  }
}
