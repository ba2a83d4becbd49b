/** Chunked bodies whose trailer has fields (section 3.6.1 of RFC 2616): a call of the
    parser takes no more than one line of the trailer. */
module ChunkTrailer {
  import opened Bf
  import opened ChunkWire
  import opened ChunkRoundTrip
  import opened Seqs

  /** The lines of a trailer with their ends, and the empty line. */
  function TrailerWire(fields: seq<seq<byte>>): seq<byte> {
    if fields == [] then CRLF else fields[0] + CRLF + TrailerWire(fields[1..])
  }

  /** Header lines that the parser accepts. */
  ghost predicate FieldsOk(fields: seq<seq<byte>>) {
    forall f :: f in fields ==> HeaderLineOk(f) && forall i :: 0 <= i < |f| ==> f[i] != CR
  }

  /** How many lines of a trailer are not complete in its first n bytes. */
  function LinesFrom(fields: seq<seq<byte>>, n: int): nat {
    if fields == [] then (if n >= 2 then 0 else 1)
    else if n >= |fields[0]| + 2 then LinesFrom(fields[1..], n - |fields[0]| - 2)
    else |fields| + 1
  }

  lemma {:induction false} LinesBound(fields: seq<seq<byte>>, n: int)
    ensures LinesFrom(fields, n) <= |fields| + 1
    ensures n < 2 || (fields != [] && n < |fields[0]| + 2) ==> LinesFrom(fields, n) == |fields| + 1
    ensures n >= |TrailerWire(fields)| ==> LinesFrom(fields, n) == 0
  {
    if fields != [] && n >= |fields[0]| + 2 {
      LinesBound(fields[1..], n - |fields[0]| - 2);
    }
  }

  /** After any of the arrivals the lines that are not complete are no more than the
      arrivals to come; got bytes of the trailer are there before. */
  ghost predicate KeepsUp(fields: seq<seq<byte>>, got: int, arrivals: seq<seq<byte>>) {
    forall j :: 0 <= j < |arrivals| ==> LinesFrom(fields, got + |Concat(arrivals[..j])|) <= |arrivals| - j
  }

  /** The same for a parser that has not yet taken any of the lines. */
  ghost predicate Paced(fields: seq<seq<byte>>, got: int, arrivals: seq<seq<byte>>) {
    |fields| + 1 <= |arrivals|
    && forall j :: 1 <= j < |arrivals| ==> LinesFrom(fields, got + |Concat(arrivals[..j])|) <= |arrivals| - j
  }

  /** One arrival. */
  lemma Shift(arrivals: seq<seq<byte>>, j: nat)
    requires 1 <= j <= |arrivals|
    ensures |Concat(arrivals[..j])| == |arrivals[0]| + |Concat(arrivals[1..][..j - 1])|
  {
    assert arrivals[..j][1..] == arrivals[1..][..j - 1];
  }

  lemma NoBytes(arrivals: seq<seq<byte>>)
    ensures Concat(arrivals[..0]) == []
  {
  }

  /** A line was taken with an arrival. */
  lemma PacedLine(fields: seq<seq<byte>>, got: int, arrivals: seq<seq<byte>>)
    requires fields != [] && arrivals != [] && got + |arrivals[0]| >= |fields[0]| + 2
    ensures Paced(fields, got, arrivals) <==>
            Paced(fields[1..], got + |arrivals[0]| - |fields[0]| - 2, arrivals[1..])
  {
    hide Concat;
    var rest, as' := fields[1..], arrivals[1..];
    var got' := got + |arrivals[0]| - |fields[0]| - 2;
    NoBytes(as');
    LinesBound(rest, got');
    forall j: nat | 1 <= j < |arrivals|
      ensures LinesFrom(fields, got + |Concat(arrivals[..j])|) == LinesFrom(rest, got' + |Concat(as'[..j - 1])|)
    {
      Shift(arrivals, j);
    }
    if Paced(rest, got', as') {
      forall j: nat | 1 <= j < |arrivals|
        ensures LinesFrom(fields, got + |Concat(arrivals[..j])|) <= |arrivals| - j
      {
        assert j > 1 ==> LinesFrom(rest, got' + |Concat(as'[..j - 1])|) <= |as'| - (j - 1);
      }
    }
    if Paced(fields, got, arrivals) {
      forall j: nat | 1 <= j < |as'|
        ensures LinesFrom(rest, got' + |Concat(as'[..j])|) <= |as'| - j
      {
        assert LinesFrom(fields, got + |Concat(arrivals[..j + 1])|) <= |arrivals| - (j + 1);
      }
    }
  }

  /** No line was there to take. */
  lemma PacedNone(fields: seq<seq<byte>>, got: int, arrivals: seq<seq<byte>>)
    requires |arrivals| > 1 && LinesFrom(fields, got + |arrivals[0]|) == |fields| + 1
    ensures Paced(fields, got, arrivals) <==> Paced(fields, got + |arrivals[0]|, arrivals[1..])
  {
    hide Concat;
    var as', got' := arrivals[1..], got + |arrivals[0]|;
    NoBytes(as');
    forall j: nat | 1 <= j < |arrivals|
      ensures got + |Concat(arrivals[..j])| == got' + |Concat(as'[..j - 1])|
    {
      Shift(arrivals, j);
    }
    if Paced(fields, got', as') {
      forall j: nat | 1 <= j < |arrivals|
        ensures LinesFrom(fields, got + |Concat(arrivals[..j])|) <= |arrivals| - j
      {
        assert j > 1 ==> LinesFrom(fields, got' + |Concat(as'[..j - 1])|) <= |as'| - (j - 1);
      }
    }
    if Paced(fields, got, arrivals) {
      assert LinesFrom(fields, got + |Concat(arrivals[..1])|) <= |arrivals| - 1;
      forall j: nat | 1 <= j < |as'| ensures LinesFrom(fields, got' + |Concat(as'[..j])|) <= |as'| - j {
        assert LinesFrom(fields, got + |Concat(arrivals[..j + 1])|) <= |arrivals| - (j + 1);
      }
    }
  }

  /** One call in the trailer: a complete line is taken, and only the empty one completes
      the body. */
  lemma TrailerCall(cap: nat, p: Parser, fields: seq<seq<byte>>, input: seq<byte>, future: seq<byte>)
    requires p.state == Trailer && FieldsOk(fields) && input + future == TrailerWire(fields)
    ensures var o := Process(cap, p, input);
            var k := if fields == [] then 0 else |fields[0]|;
            if |input| < k + 2 then
              if |input| == cap then o.status == Error && o.body == [] else o == Outcome(NeedMoreData, p, input, [])
            else
              && o == Outcome(if fields == [] then Completed else NeedMoreData, p, input[k + 2..], [])
              && input[k + 2..] + future == if fields == [] then [] else TrailerWire(fields[1..])
  {
    hide Process, TrailerWire;
    if fields == [] {
      NoTrailer();
      assert input + future == [] + CRLF + [];
      LineCall(cap, p, [], [], input, future);
    } else {
      assert fields[0] in fields;
      Starts(fields[0]);
      NextField(fields);
      LineCall(cap, p, fields[0], TrailerWire(fields[1..]), input, future);
    }
  }

  lemma NoTrailer()
    ensures TrailerWire([]) == CRLF
  {
  }

  lemma NextField(fields: seq<seq<byte>>)
    requires fields != []
    ensures TrailerWire(fields) == fields[0] + CRLF + TrailerWire(fields[1..])
  {
  }

  /** The first line of a trailer. */
  lemma LineCall(cap: nat, p: Parser, line: seq<byte>, tail: seq<byte>, input: seq<byte>, future: seq<byte>)
    requires p.state == Trailer && input + future == line + CRLF + tail
    requires forall i :: 0 <= i < |line| ==> line[i] != CR
    requires line == [] || (line[0] != 0 && HeaderLineOk(line))
    ensures var o := Process(cap, p, input);
            if |input| < |line| + 2 then
              if |input| == cap then o.status == Error && o.body == [] else o == Outcome(NeedMoreData, p, input, [])
            else
              && o == Outcome(if line == [] then Completed else NeedMoreData, p, input[|line| + 2..], [])
              && input[|line| + 2..] + future == tail
  {
    hide FindLine, HeaderLineOk;
    LineFirst(line, tail, input, future);
  }

  lemma Starts(line: seq<byte>)
    requires HeaderLineOk(line)
    ensures line != [] && line[0] != 0
  {
  }

  /** A reception ends with the body, and finished if it keeps up; on a buffer that holds
      the stream it ends so. */
  ghost predicate EndsRight(x: Reception, body: seq<byte>, keepsUp: bool, fits: bool) {
    && (x.Finished? || x.Pending? ==> x.body == body)
    && (x.Finished? ==> keepsUp && x.rest + Concat(x.left) == [])
    && (x.Pending? ==> !keepsUp)
    && (fits ==> x.Finished? || x.Pending?)
  }

  lemma BodyInFront(x: Reception, front: seq<byte>, body: seq<byte>, keepsUp: bool, fits: bool)
    requires EndsRight(x, body, keepsUp, fits)
    ensures EndsRight(x.(body := front + x.body), front + body, keepsUp, fits)
  {
  }

  /** A call that needs more data and delivers nothing. */
  lemma Waits(cap: nat, p: Parser, rest: seq<byte>, arrivals: seq<seq<byte>>, rest': seq<byte>)
    requires arrivals != [] && |rest| + |arrivals[0]| <= cap
    requires Process(cap, p, rest + arrivals[0]) == Outcome(NeedMoreData, p, rest', [])
    ensures Receive(cap, p, rest, arrivals) == Receive(cap, p, rest', arrivals[1..])
  {
    hide Process;
    var x := Receive(cap, p, rest', arrivals[1..]);
    assert [] + x.body == x.body;
  }

  /** A reception that ends in the trailer without taking a field. */
  lemma LastTurn(cap: nat, p: Parser, fields: seq<seq<byte>>, rest: seq<byte>, arrivals: seq<seq<byte>>)
    requires p.state == Trailer && FieldsOk(fields) && rest + Concat(arrivals) == TrailerWire(fields)
    requires arrivals == [] || |rest| + |arrivals[0]| >= cap || (fields == [] && |rest| + |arrivals[0]| >= 2)
    requires fields == [] || arrivals == [] || |rest| + |arrivals[0]| < |fields[0]| + 2 || |rest| + |arrivals[0]| > cap
    ensures EndsRight(Receive(cap, p, rest, arrivals), [], Paced(fields, |rest|, arrivals), |TrailerWire(fields)| < cap)
  {
    hide Process, TrailerWire, LinesFrom, Paced;
    if arrivals == [] {
      PacedNever(fields, |rest|);
    } else {
      var input, as' := rest + arrivals[0], arrivals[1..];
      assert input + Concat(as') == rest + Concat(arrivals);
      Lengths(fields, input, Concat(as'));
      if |input| <= cap {
        TrailerCall(cap, p, fields, input, Concat(as'));
        if fields == [] && |input| >= 2 {
          PacedEmpty(|rest|, arrivals);
        }
      }
    }
  }

  /** The reception of a trailer. */
  lemma {:induction false} TrailerPhase(
    cap: nat, p: Parser, fields: seq<seq<byte>>, rest: seq<byte>, arrivals: seq<seq<byte>>)
    requires p.state == Trailer && FieldsOk(fields) && rest + Concat(arrivals) == TrailerWire(fields)
    ensures EndsRight(Receive(cap, p, rest, arrivals), [], Paced(fields, |rest|, arrivals), |TrailerWire(fields)| < cap)
    decreases |arrivals|
  {
    hide Process, TrailerWire, LinesFrom, Paced, Receive, EndsRight;
    if arrivals == [] || |rest| + |arrivals[0]| > cap {
      LastTurn(cap, p, fields, rest, arrivals);
    } else {
      var input, as' := rest + arrivals[0], arrivals[1..];
      assert input + Concat(as') == rest + Concat(arrivals);
      TrailerCall(cap, p, fields, input, Concat(as'));
      Lengths(fields, input, Concat(as'));
      if fields != [] && |input| >= |fields[0]| + 2 {
        var rest' := input[|fields[0]| + 2..];
        Waits(cap, p, rest, arrivals, rest');
        TrailerPhase(cap, p, fields[1..], rest', as');
        PacedLine(fields, |rest|, arrivals);
        LessFits(Receive(cap, p, rest', as'), [], Paced(fields, |rest|, arrivals),
                 |TrailerWire(fields[1..])| < cap, |TrailerWire(fields)| < cap);
      } else if (fields == [] && |input| >= 2) || |input| == cap {
        LastTurn(cap, p, fields, rest, arrivals);
      } else {
        Waits(cap, p, rest, arrivals, input);
        TrailerPhase(cap, p, fields, input, as');
        LinesBound(fields, |input|);
        Longest(fields, input, as');
        PacedNone(fields, |rest|, arrivals);
      }
    }
  }

  lemma Lengths(fields: seq<seq<byte>>, input: seq<byte>, future: seq<byte>)
    requires input + future == TrailerWire(fields)
    ensures |input| <= |TrailerWire(fields)| && |TrailerWire(fields)| >= 2
    ensures fields != [] ==> |TrailerWire(fields[1..])| + |fields[0]| + 2 == |TrailerWire(fields)|
    ensures FieldsOk(fields) && fields != [] ==> FieldsOk(fields[1..])
  {
    assert |input + future| == |input| + |future|;
  }

  /** The last arrival completes a line. */
  lemma Longest(fields: seq<seq<byte>>, input: seq<byte>, as': seq<seq<byte>>)
    requires input + Concat(as') == TrailerWire(fields)
    requires |input| < (if fields == [] then 0 else |fields[0]|) + 2
    ensures as' != []
  {
    Lengths(fields, input, Concat(as'));
    assert |input + Concat(as')| == |input| + |Concat(as')|;
  }

  lemma PacedNever(fields: seq<seq<byte>>, got: int)
    ensures !Paced(fields, got, [])
  {
  }

  lemma PacedEmpty(got: int, arrivals: seq<seq<byte>>)
    requires arrivals != [] && got + |arrivals[0]| >= 2
    ensures Paced([], got, arrivals)
  {
    forall j: nat | 1 <= j < |arrivals| ensures LinesFrom([], got + |Concat(arrivals[..j])|) <= |arrivals| - j {
      Shift(arrivals, j);
    }
  }

  // ----- the whole stream -----

  /** What is left of the chunks, with the header of the last one. */
  function Front(r: Rest): seq<byte> {
    match r
    case AtHeader(cs) => Chunks(cs) + [48] + CRLF
    case AtData(d, cs) => d + (CRLF + (Chunks(cs) + [48] + CRLF))
    case AtEof(cs) => CRLF + (Chunks(cs) + [48] + CRLF)
    case Last(_) => []
  }

  lemma {:induction false} ChunksWire(cs: seq<seq<byte>>)
    ensures Wire(cs) == Chunks(cs) + [48] + CRLF + CRLF
  {
    if cs != [] {
      ChunksWire(cs[1..]);
    }
  }

  lemma FrontWire(r: Rest)
    requires RestUnread(r) == []
    ensures RestWire(r) == Front(r) + CRLF && Need(r) == |Front(r)| + 2
  {
    hide Chunks, Wire;
    match r {
      case AtHeader(cs) => ChunksWire(cs);
      case AtData(_, cs) => ChunksWire(cs);
      case AtEof(cs) => ChunksWire(cs);
      case Last(_) =>
    }
  }

  /** Two sequences with one end. */
  lemma CutEnd(a: seq<byte>, b: seq<byte>, end: seq<byte>)
    requires a + end == b + end
    ensures a == b
  {
    assert |a + end| == |b + end|;
    assert a == (a + end)[..|a|] && b == (b + end)[..|b|];
  }

  /** A call on less than that stops at a later point. */
  lemma BeforeTrailer(cap: nat, p: Parser, r: Rest, input: seq<byte>, future: seq<byte>) returns (r': Rest)
    requires Stands(p, r) && RestUnread(r) == [] && 2 <= cap && input + future == Front(r) && future != []
    ensures var o := Process(cap, p, input);
            && o.status == NeedMoreData && Stands(o.parser, r') && RestUnread(r') == []
            && o.rest + future == Front(r') && o.body + RestBody(r') == RestBody(r)
  {
    hide Front, RestWire, RestBody, RestUnread, Stands, Process, Need;
    FrontWire(r);
    assert input + (future + CRLF) == Front(r) + CRLF;
    r' := ProcessStep(cap, p, r, input, future + CRLF);
    FrontWire(r');
    var o := Process(cap, p, input);
    assert (o.rest + future) + CRLF == o.rest + (future + CRLF);
    CutEnd(o.rest + future, Front(r'), CRLF);
  }

  function Steps(r: Rest): nat {
    match r
    case AtHeader(cs) => 3 * |cs|
    case AtData(_, cs) => 3 * |cs| + 2
    case AtEof(cs) => 3 * |cs| + 1
    case Last(_) => 0
  }

  /** A call on all of that comes to the trailer. */
  lemma {:induction false} ThroughBody(cap: nat, p: Parser, r: Rest, x: seq<byte>) returns (q: Parser)
    requires Stands(p, r) && RestUnread(r) == []
    ensures q.state == Trailer && Through(cap, p, r, q, x)
    decreases Steps(r), 1
  {
    match r {
      case AtHeader(cs) => q := ThroughHeader(cap, p, cs, x);
      case AtData(d, cs) => q := ThroughData(cap, p, d, cs, x);
      case AtEof(cs) => q := ThroughEof(cap, p, cs, x);
      case Last(_) =>
        q := p;
        assert Front(r) + x == x && [] + Process(cap, q, x).body == Process(cap, q, x).body;
    }
  }

  /** The call delivers what is left of the body, and goes on with x as a call in state q. */
  ghost predicate Through(cap: nat, p: Parser, r: Rest, q: Parser, x: seq<byte>) {
    var o := Process(cap, q, x);
    Process(cap, p, Front(r) + x) == o.(body := RestBody(r) + o.body)
  }

  lemma {:induction false} ThroughEof(cap: nat, p: Parser, cs: seq<seq<byte>>, x: seq<byte>) returns (q: Parser)
    requires Stands(p, AtEof(cs)) && Unread(cs) == []
    ensures q.state == Trailer && Through(cap, p, AtEof(cs), q, x)
    decreases Steps(AtEof(cs)), 0
  {
    hide Process;
    var input, rest := Front(AtEof(cs)) + x, Front(AtHeader(cs)) + x;
    assert input + [] == [] + CRLF + rest;
    LineFirst([], rest, input, []);
    assert input[2..] == rest;
    GoOn(cap, p, input, p.(state := Header), rest);
    q := ThroughBody(cap, p.(state := Header), AtHeader(cs), x);
  }

  lemma {:induction false} ThroughData(cap: nat, p: Parser, d: seq<byte>, cs: seq<seq<byte>>, x: seq<byte>)
    returns (q: Parser)
    requires Stands(p, AtData(d, cs)) && Unread(cs) == []
    ensures q.state == Trailer && Through(cap, p, AtData(d, cs), q, x)
    decreases Steps(AtData(d, cs)), 0
  {
    var input, rest := Front(AtData(d, cs)) + x, Front(AtEof(cs)) + x;
    assert input == d + rest && input[..|d|] == d && input[|d|..] == rest;
    q := ThroughBody(cap, Parser(EofAfterData, 0), AtEof(cs), x);
    var body, o := Concat(Effective(cs)), Process(cap, q, x);
    assert d + (body + o.body) == (d + body) + o.body;
  }

  lemma {:induction false} ThroughHeader(cap: nat, p: Parser, cs: seq<seq<byte>>, x: seq<byte>) returns (q: Parser)
    requires Stands(p, AtHeader(cs)) && Unread(cs) == []
    ensures q.state == Trailer && Through(cap, p, AtHeader(cs), q, x)
    decreases Steps(AtHeader(cs)), 0
  {
    hide Process, Front, TurnOf, Chunks;
    var input := Front(AtHeader(cs)) + x;
    if cs == [] {
      q := p.(state := Trailer);
      LastHeader(cap, p, x);
    } else {
      SomeData(cs);
      var next := AtData(cs[0], cs[1..]);
      NextHeader(cap, p, cs, x);
      q := ThroughBody(cap, Parser(Data, |cs[0]|), next, x);
    }
  }

  /** The header of the last chunk. */
  lemma LastHeader(cap: nat, p: Parser, x: seq<byte>)
    requires p.state == Header
    ensures Through(cap, p, AtHeader([]), p.(state := Trailer), x)
  {
    hide Process, FindLine, ChunkSize;
    var q, input := p.(state := Trailer), Front(AtHeader([])) + x;
    assert Hex(0) == [48] && Chunks([]) + [48] + CRLF == [48] + CRLF;
    assert input + [] == Hex(0) + CRLF + x;
    LineOfHeader(0, x, input, []);
    assert input[3..] + [] == input[3..];
    GoOn(cap, p, input, q, x);
    assert [] + Process(cap, q, x).body == Process(cap, q, x).body;
  }

  /** The header of another one. */
  lemma NextHeader(cap: nat, p: Parser, cs: seq<seq<byte>>, x: seq<byte>)
    requires p.state == Header && cs != [] && 0 < |cs[0]| <= LONG_MAX
    ensures Process(cap, p, Front(AtHeader(cs)) + x) ==
            Process(cap, Parser(Data, |cs[0]|), Front(AtData(cs[0], cs[1..])) + x)
  {
    hide Process, FindLine, ChunkSize, Hex, Front;
    var n, rest, input := |cs[0]|, Front(AtData(cs[0], cs[1..])) + x, Front(AtHeader(cs)) + x;
    FrontHeader(cs);
    assert input + [] == Hex(n) + CRLF + rest;
    LineOfHeader(n, rest, input, []);
    assert input[|Hex(n)| + 2..] + [] == input[|Hex(n)| + 2..];
    GoOn(cap, p, input, Parser(Data, n), rest);
  }

  lemma FrontHeader(cs: seq<seq<byte>>)
    requires cs != []
    ensures Front(AtHeader(cs)) == Hex(|cs[0]|) + CRLF + Front(AtData(cs[0], cs[1..]))
  {
    hide Hex;
  }

  lemma SomeData(cs: seq<seq<byte>>)
    requires cs != [] && Unread(cs) == [] && Sizes(cs)
    ensures cs[0] != [] && Unread(cs[1..]) == [] && Sizes(cs[1..]) && 0 < |cs[0]| <= LONG_MAX
    ensures Concat(Effective(cs)) == cs[0] + Concat(Effective(cs[1..]))
  {
    UnreadIsSuffix(cs[1..]);
    assert cs[0] in cs;
  }

  /** The pace counted over the whole stream, up to the call that comes to the trailer. */
  lemma KeepsUpFirst(fields: seq<seq<byte>>, got: int, arrivals: seq<seq<byte>>)
    requires arrivals != [] && got < 0 && got + |arrivals[0]| >= 0
    ensures var x := arrivals[0][-got..];
            KeepsUp(fields, got, arrivals) <==> Paced(fields, 0, [x] + arrivals[1..])
  {
    hide Concat, LinesFrom;
    var as' := [arrivals[0][-got..]] + arrivals[1..];
    NoBytes(arrivals);
    LinesBound(fields, got);
    assert as'[1..] == arrivals[1..];
    forall j: nat | 1 <= j < |arrivals|
      ensures got + |Concat(arrivals[..j])| == 0 + |Concat(as'[..j])|
    {
      Shift(arrivals, j);
      Shift(as', j);
    }
    if KeepsUp(fields, got, arrivals) {
      assert LinesFrom(fields, got + |Concat(arrivals[..0])|) <= |arrivals| - 0;
      forall j: nat | 1 <= j < |as'| ensures LinesFrom(fields, 0 + |Concat(as'[..j])|) <= |as'| - j {
        assert LinesFrom(fields, got + |Concat(arrivals[..j])|) <= |arrivals| - j;
      }
    }
    if Paced(fields, 0, as') {
      forall j: nat | 0 <= j < |arrivals| ensures LinesFrom(fields, got + |Concat(arrivals[..j])|) <= |arrivals| - j {
        assert j > 0 ==> LinesFrom(fields, 0 + |Concat(as'[..j])|) <= |as'| - j;
      }
    }
  }

  lemma KeepsUpLater(fields: seq<seq<byte>>, got: int, arrivals: seq<seq<byte>>)
    requires |arrivals| > 1 && got + |arrivals[0]| < 0
    ensures KeepsUp(fields, got, arrivals) <==> KeepsUp(fields, got + |arrivals[0]|, arrivals[1..])
  {
    hide Concat, LinesFrom;
    var as', got' := arrivals[1..], got + |arrivals[0]|;
    NoBytes(arrivals);
    NoBytes(as');
    LinesBound(fields, got);
    LinesBound(fields, got');
    forall j: nat | 1 <= j < |arrivals|
      ensures got + |Concat(arrivals[..j])| == got' + |Concat(as'[..j - 1])|
    {
      Shift(arrivals, j);
    }
    if KeepsUp(fields, got, arrivals) {
      forall j: nat | 0 <= j < |as'| ensures LinesFrom(fields, got' + |Concat(as'[..j])|) <= |as'| - j {
        assert LinesFrom(fields, got + |Concat(arrivals[..j + 1])|) <= |arrivals| - (j + 1);
      }
    }
    if KeepsUp(fields, got', as') {
      assert LinesFrom(fields, got' + |Concat(as'[..0])|) <= |as'| - 0;
      forall j: nat | 0 <= j < |arrivals| ensures LinesFrom(fields, got + |Concat(arrivals[..j])|) <= |arrivals| - j {
        assert j > 0 ==> LinesFrom(fields, got' + |Concat(as'[..j - 1])|) <= |as'| - (j - 1);
      }
    }
  }

  /** A reception from any point of a stream whose trailer has fields. */
  lemma {:induction false} FieldsReceived(
    cap: nat, p: Parser, r: Rest, fields: seq<seq<byte>>, rest: seq<byte>, arrivals: seq<seq<byte>>)
    requires Stands(p, r) && RestUnread(r) == [] && FieldsOk(fields) && 2 <= cap
    requires rest + Concat(arrivals) == Front(r) + TrailerWire(fields) && |rest| < |Front(r)|
    ensures EndsRight(Receive(cap, p, rest, arrivals), RestBody(r), KeepsUp(fields, |rest| - |Front(r)|, arrivals),
                      |Front(r)| + |TrailerWire(fields)| < cap)
    decreases |arrivals|
  {
    hide Process, TrailerWire, LinesFrom, Front, RestBody, RestUnread, Stands, KeepsUp, Paced;
    Sums(rest, arrivals, Front(r), TrailerWire(fields));
    if |rest| + |arrivals[0]| <= cap {
      var input, as', b := rest + arrivals[0], arrivals[1..], |Front(r)|;
      assert input + Concat(as') == Front(r) + TrailerWire(fields);
      Split(input, Concat(as'), Front(r), TrailerWire(fields));
      if |input| < b {
        var missing := Front(r)[|input|..];
        var r' := BeforeTrailer(cap, p, r, input, missing);
        var o := Process(cap, p, input);
        assert o.rest + (missing + TrailerWire(fields)) == (o.rest + missing) + TrailerWire(fields);
        assert |o.rest + missing| == |Front(r')|;
        RestFits(cap, p, input);
        FieldsReceived(cap, o.parser, r', fields, o.rest, as');
        KeepsUpLater(fields, |rest| - b, arrivals);
        BodyInFront(Receive(cap, o.parser, o.rest, as'), o.body, RestBody(r'), KeepsUp(fields, |input| - b, as'),
                    |Front(r')| + |TrailerWire(fields)| < cap);
      } else {
        var x := input[b..];
        assert input == Front(r) + x;
        var q := ThroughBody(cap, p, r, x);
        Tail(rest, arrivals[0], Front(r), x);
        LastPhase(cap, p, q, fields, rest, arrivals, b, RestBody(r));
      }
    }
  }

  lemma {:induction false} RestFits(cap: nat, p: Parser, input: seq<byte>)
    ensures |Process(cap, p, input).rest| <= |input|
    decreases |input|
  {
    hide FindLine;
    LineIn(input);
    match TurnOf(cap, p, input)
    case Stop(_) =>
    case Go(p', rest, _) => RestFits(cap, p', rest);
  }

  lemma Sums(rest: seq<byte>, arrivals: seq<seq<byte>>, front: seq<byte>, trailer: seq<byte>)
    requires rest + Concat(arrivals) == front + trailer && |rest| < |front|
    ensures arrivals != [] && Concat(arrivals) == arrivals[0] + Concat(arrivals[1..])
    ensures |rest| + |arrivals[0]| + |Concat(arrivals[1..])| == |front| + |trailer|
    ensures |rest| + |arrivals[0]| < |front| ==> |arrivals| > 1
  {
    assert |rest + Concat(arrivals)| == |front + trailer|;
  }

  /** The call that comes to the trailer, behind the first front bytes, and those after it. */
  lemma LastPhase(
    cap: nat, p: Parser, q: Parser, fields: seq<seq<byte>>, rest: seq<byte>, arrivals: seq<seq<byte>>, front: nat,
    body: seq<byte>)
    requires q.state == Trailer && FieldsOk(fields)
    requires arrivals != [] && |rest| < front <= |rest| + |arrivals[0]| <= cap
    requires var x := arrivals[0][front - |rest|..];
             && x + Concat(arrivals[1..]) == TrailerWire(fields)
             && var o := Process(cap, q, x); Process(cap, p, rest + arrivals[0]) == o.(body := body + o.body)
    ensures EndsRight(Receive(cap, p, rest, arrivals), body, KeepsUp(fields, |rest| - front, arrivals),
                      front + |TrailerWire(fields)| < cap)
  {
    hide Process, TrailerWire, LinesFrom, KeepsUp, Paced, Receive, Concat, EndsRight, FieldsOk;
    LaterCalls(cap, p, q, fields, rest, arrivals, arrivals[0][front - |rest|..], body);
    KeepsUpFirst(fields, |rest| - front, arrivals);
    LessFits(Receive(cap, p, rest, arrivals), body, KeepsUp(fields, |rest| - front, arrivals),
             |TrailerWire(fields)| < cap, front + |TrailerWire(fields)| < cap);
  }

  lemma LaterCalls(
    cap: nat, p: Parser, q: Parser, fields: seq<seq<byte>>, rest: seq<byte>, arrivals: seq<seq<byte>>, x: seq<byte>,
    body: seq<byte>)
    requires q.state == Trailer && FieldsOk(fields)
    requires arrivals != [] && |rest| + |arrivals[0]| <= cap && |x| <= cap
    requires x + Concat(arrivals[1..]) == TrailerWire(fields)
    requires var o := Process(cap, q, x); Process(cap, p, rest + arrivals[0]) == o.(body := body + o.body)
    ensures EndsRight(Receive(cap, p, rest, arrivals), body, Paced(fields, 0, [x] + arrivals[1..]),
                      |TrailerWire(fields)| < cap)
  {
    hide Process, TrailerWire, LinesFrom, Paced, Receive, Concat, EndsRight, FieldsOk;
    var later := [x] + arrivals[1..];
    Later(x, arrivals[1..]);
    TrailerPhase(cap, q, fields, [], later);
    SameEnd(cap, p, rest, arrivals, q, x, body);
    BodyInFront(Receive(cap, q, [], later), body, [], Paced(fields, 0, later), |TrailerWire(fields)| < cap);
    assert body + [] == body;
  }

  lemma LessFits(x: Reception, body: seq<byte>, keepsUp: bool, more: bool, fits: bool)
    requires EndsRight(x, body, keepsUp, more) && (fits ==> more)
    ensures EndsRight(x, body, keepsUp, fits)
  {
  }

  lemma Tail(rest: seq<byte>, arrival: seq<byte>, front: seq<byte>, x: seq<byte>)
    requires rest + arrival == front + x && |rest| <= |front|
    ensures |rest| + |arrival| == |front| + |x| && arrival[|front| - |rest|..] == x
  {
    assert |rest + arrival| == |front + x|;
    assert arrival[|front| - |rest|..] == (rest + arrival)[|front|..] == x;
  }

  lemma Later(x: seq<byte>, as': seq<seq<byte>>)
    ensures [] + Concat([x] + as') == x + Concat(as')
  {
    assert ([x] + as')[1..] == as';
  }

  /** Two receptions whose first calls differ in what they deliver. */
  lemma SameEnd(
    cap: nat, p: Parser, rest: seq<byte>, arrivals: seq<seq<byte>>, q: Parser, x: seq<byte>, body: seq<byte>)
    requires arrivals != [] && |rest| + |arrivals[0]| <= cap && |x| <= cap
    requires var o := Process(cap, q, x); Process(cap, p, rest + arrivals[0]) == o.(body := body + o.body)
    ensures var z := Receive(cap, q, [], [x] + arrivals[1..]);
            Receive(cap, p, rest, arrivals) == z.(body := body + z.body)
  {
    hide Process;
    var later, o := [x] + arrivals[1..], Process(cap, q, x);
    assert later[1..] == arrivals[1..] && [] + x == x;
    if o.status == NeedMoreData {
      var z := Receive(cap, o.parser, o.rest, arrivals[1..]);
      assert body + (o.body + z.body) == (body + o.body) + z.body;
    }
  }

  /** Chunks, the header of the last one, and a trailer. */
  function Stream(cs: seq<seq<byte>>, fields: seq<seq<byte>>): seq<byte> {
    Chunks(cs) + [48] + CRLF + TrailerWire(fields)
  }

  /** A trailer with fields, however the stream is cut: the reception is finished at the
      last arrival if and only if after any number of arrivals no more lines of the
      trailer are incomplete than arrivals are still to come.  If not, the body is
      there, but the receiver goes on waiting; so it does when all comes at once, unless
      there are no fields. */
  lemma TrailerCompletes(
    cap: nat, left: nat, cs: seq<seq<byte>>, fields: seq<seq<byte>>, arrivals: seq<seq<byte>>)
    requires Sizes(cs) && [] !in cs && FieldsOk(fields) && Concat(arrivals) == Stream(cs, fields) && 2 <= cap
    ensures EndsRight(Receive(cap, Parser(Header, left), [], arrivals), Concat(cs),
                      KeepsUp(fields, -|Chunks(cs)| - 3, arrivals), |Stream(cs, fields)| < cap)
  {
    hide Receive, KeepsUp, TrailerWire, Chunks, Concat, Effective, Unread, FieldsOk, Sizes;
    NoEmptyChunk(cs);
    assert [] + Concat(arrivals) == Front(AtHeader(cs)) + TrailerWire(fields);
    FieldsReceived(cap, Parser(Header, left), AtHeader(cs), fields, [], arrivals);
  }

  /** All at once: complete exactly when there is no field. */
  lemma AllAtOnce(cap: nat, left: nat, cs: seq<seq<byte>>, fields: seq<seq<byte>>)
    requires Sizes(cs) && [] !in cs && FieldsOk(fields) && |Stream(cs, fields)| < cap
    ensures var x := Receive(cap, Parser(Header, left), [], [Stream(cs, fields)]);
            x.body == Concat(cs) && (x.Finished? <==> fields == []) && (x.Pending? <==> fields != [])
  {
    hide Receive, LinesFrom, TrailerWire, FieldsOk, Sizes, Chunks, Concat;
    var arrivals := [Stream(cs, fields)];
    ConcatOne(Stream(cs, fields));
    TrailerCompletes(cap, left, cs, fields, arrivals);
    NoBytes(arrivals);
    LinesBound(fields, -|Chunks(cs)| - 3);
    assert KeepsUp(fields, -|Chunks(cs)| - 3, arrivals) ==>
        LinesFrom(fields, -|Chunks(cs)| - 3 + |Concat(arrivals[..0])|) <= |arrivals| - 0;
  }
}
