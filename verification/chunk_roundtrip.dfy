/** Whole receptions of a chunked body: the wire arrives in pieces of any size. */
module ChunkRoundTrip {
  import opened Bf
  import opened ChunkWire
  import opened Seqs

  /** left are the arrivals not looked at when the body was complete; Overflow:
      an arrival did not fit into the buffer. */
  datatype Reception =
    | Finished(body: seq<byte>, rest: seq<byte>, left: seq<seq<byte>>)
    | Pending(body: seq<byte>, parser: Parser, rest: seq<byte>)
    | Failed(body: seq<byte>)
    | Overflow(body: seq<byte>)

  /** Each arrival is put behind the bytes that an earlier call left over, then the
      parser is called. */
  function Receive(cap: nat, p: Parser, rest: seq<byte>, arrivals: seq<seq<byte>>): Reception
    decreases |arrivals|
  {
    if arrivals == [] then Pending([], p, rest)
    else if |rest| + |arrivals[0]| > cap then Overflow([])
    else
      var o := Process(cap, p, rest + arrivals[0]);
      match o.status
      case Completed => Finished(o.body, o.rest, arrivals[1..])
      case NeedMoreData =>
        var r := Receive(cap, o.parser, o.rest, arrivals[1..]);
        r.(body := o.body + r.body)
      case _ => Failed(o.body)
  }

  /** Every arrival leaves room for the longest piece of a line that a call can
      leave behind. */
  ghost predicate Fit(arrivals: seq<seq<byte>>, cap: nat) {
    forall a :: a in arrivals ==> |a| + 17 <= cap
  }

  /** The reception x completed the body that belongs to point r. */
  ghost predicate Completes(x: Reception, r: Rest, future: seq<byte>) {
    x.Finished? && x.body == RestBody(r) && x.rest + Concat(x.left) + future == RestUnread(r)
  }

  lemma {:induction false} ReceiveCompletes(
    cap: nat, p: Parser, rest: seq<byte>, r: Rest, arrivals: seq<seq<byte>>, future: seq<byte>)
    requires Stands(p, r) && rest + (Concat(arrivals) + future) == RestWire(r)
    requires 2 <= cap && |rest| < Need(r) <= |rest| + |Concat(arrivals)|
    ensures var x := Receive(cap, p, rest, arrivals); x.Overflow? || Completes(x, r, future)
    decreases |arrivals|
  {
    hide TurnOf, Process, RestWire, RestBody, RestUnread, Stands, Need;
    if |rest| + |arrivals[0]| <= cap {
      var as' := arrivals[1..];
      var o, r' := FirstArrival(cap, p, rest, r, arrivals, future);
      if |rest + arrivals[0]| < Need(r) {
        ReceiveCompletes(cap, o.parser, o.rest, r', as', future);
      } else {
        assert o.rest + (Concat(as') + future) == o.rest + Concat(as') + future;
      }
    }
  }

  lemma {:induction false} ReceivePends(
    cap: nat, p: Parser, rest: seq<byte>, r: Rest, arrivals: seq<seq<byte>>, future: seq<byte>)
    requires Stands(p, r) && rest + (Concat(arrivals) + future) == RestWire(r)
    requires 2 <= cap && |rest| + |Concat(arrivals)| < Need(r)
    ensures var x := Receive(cap, p, rest, arrivals); x.Overflow? || (x.Pending? && x.body <= RestBody(r))
    decreases |arrivals|
  {
    hide TurnOf, Process, RestWire, RestBody, RestUnread, Stands, Need;
    if arrivals != [] && |rest| + |arrivals[0]| <= cap {
      var as' := arrivals[1..];
      var o, r' := FirstArrival(cap, p, rest, r, arrivals, future);
      ReceivePends(cap, o.parser, o.rest, r', as', future);
    }
  }

  /** Arrivals that leave 17 bytes of room never overflow the buffer. */
  lemma {:induction false} FitNeverOverflows(
    cap: nat, p: Parser, rest: seq<byte>, r: Rest, arrivals: seq<seq<byte>>, future: seq<byte>)
    requires Stands(p, r) && rest + (Concat(arrivals) + future) == RestWire(r)
    requires 2 <= cap && |rest| < Need(r)
    requires Fit(arrivals, cap) && |rest| <= 17
    ensures !Receive(cap, p, rest, arrivals).Overflow?
    decreases |arrivals|
  {
    hide TurnOf, Process, RestWire, RestBody, RestUnread, Stands, Need;
    if arrivals != [] {
      assert arrivals[0] in arrivals;
      var o, r' := FirstArrival(cap, p, rest, r, arrivals, future);
      if |rest + arrivals[0]| < Need(r) {
        assert Fit(arrivals[1..], cap);
        FitNeverOverflows(cap, o.parser, o.rest, r', arrivals[1..], future);
      }
    }
  }

  lemma FirstArrival(
    cap: nat, p: Parser, rest: seq<byte>, r: Rest, arrivals: seq<seq<byte>>, future: seq<byte>)
    returns (o: Outcome, r': Rest)
    requires Stands(p, r) && rest + (Concat(arrivals) + future) == RestWire(r)
    requires 2 <= cap && |rest| < Need(r) && arrivals != []
    ensures o == Process(cap, p, rest + arrivals[0])
    ensures var n, f := |rest + arrivals[0]|, Concat(arrivals[1..]) + future;
            && Right(o, n, r, r', f)
            && (n < Need(r) ==>
                  && Need(r) - n == Need(r') - |o.rest| && |o.rest| < Need(r')
                  && o.rest + f == RestWire(r') && Stands(o.parser, r'))
  {
    hide TurnOf, Process, RestWire, RestBody, RestUnread, Stands, Need, Right;
    var f := Concat(arrivals[1..]) + future;
    assert rest + arrivals[0] + f == rest + (Concat(arrivals) + future);
    o := Process(cap, p, rest + arrivals[0]);
    r' := ProcessStep(cap, p, r, rest + arrivals[0], f);
    if |rest + arrivals[0]| < Need(r) {
      RightPending(o, |rest + arrivals[0]|, r, r', f);
      Pieces(o, |rest + arrivals[0]|, r, r', f);
    }
  }

  lemma RightPending(o: Outcome, n: nat, r: Rest, r': Rest, f: seq<byte>)
    requires n < Need(r) && Right(o, n, r, r', f)
    ensures o.rest + f == RestWire(r') && Stands(o.parser, r')
  {
  }

  /** A pending call has not seen the completing line end of the later point. */
  lemma Pieces(o: Outcome, n: nat, r: Rest, r': Rest, f: seq<byte>)
    requires n < Need(r) && n + |f| == |RestWire(r)| && Right(o, n, r, r', f)
    ensures |o.rest| < Need(r') && Need(r) - n == Need(r') - |o.rest|
  {
    assert |o.rest + f| == |RestWire(r')|;
  }

  /** The main theorem.  However the wire of a chunk list is cut into arrivals, as
      long as each one fits the buffer when it comes, a reception of the first
      arrivals is finished exactly when they hold the line end that completes the
      body, and never before.  It then has delivered the chunks in front of the
      first empty one.  Arrivals that leave 17 bytes of room always fit. */
  lemma RoundTrip(cap: nat, left: nat, cs: seq<seq<byte>>, arrivals: seq<seq<byte>>, future: seq<byte>)
    requires Sizes(cs) && Concat(arrivals) + future == Wire(cs)
    requires 2 <= cap
    ensures var x := Receive(cap, Parser(Header, left), [], arrivals);
            || x.Overflow?
            || if |future| <= |Unread(cs)| then
                 x.Finished? && x.body == Concat(Effective(cs)) && x.rest + Concat(x.left) + future == Unread(cs)
               else x.Pending? && x.body <= Concat(Effective(cs))
    ensures Fit(arrivals, cap) ==> !Receive(cap, Parser(Header, left), [], arrivals).Overflow?
  {
    UnreadIsSuffix(cs);
    assert [] + (Concat(arrivals) + future) == Concat(arrivals) + future;
    if |future| <= |Unread(cs)| {
      ReceiveCompletes(cap, Parser(Header, left), [], AtHeader(cs), arrivals, future);
    } else {
      ReceivePends(cap, Parser(Header, left), [], AtHeader(cs), arrivals, future);
    }
    if Fit(arrivals, cap) {
      FitNeverOverflows(cap, Parser(Header, left), [], AtHeader(cs), arrivals, future);
    }
  }

  lemma {:induction false} NoEmptyChunk(cs: seq<seq<byte>>)
    ensures Unread(cs) == [] <==> [] !in cs
    ensures [] !in cs ==> Concat(Effective(cs)) == Concat(cs)
  {
    if cs != [] {
      if cs[0] == [] {
        UnreadIsSuffix(cs[1..]);
      } else {
        NoEmptyChunk(cs[1..]);
        assert [] in cs <==> [] in cs[1..];
      }
    }
  }

  /** The round trip holds exactly for the lists without an empty chunk: only then
      does completion leave nothing of the wire unread, and then the delivered
      body is the whole data. */
  lemma RoundTripExactly(cap: nat, left: nat, cs: seq<seq<byte>>, arrivals: seq<seq<byte>>)
    requires Sizes(cs) && Concat(arrivals) == Wire(cs)
    requires 2 <= cap
    ensures var x := Receive(cap, Parser(Header, left), [], arrivals);
            if x.Overflow? then true
            else
              && x.Finished?
              && (x.rest + Concat(x.left) == [] <==> [] !in cs)
              && ([] !in cs ==> x.body == Concat(cs))
  {
    assert Concat(arrivals) + [] == Wire(cs);
    RoundTrip(cap, left, cs, arrivals, []);
    var x := Receive(cap, Parser(Header, left), [], arrivals);
    if x.Finished? {
      assert x.rest + Concat(x.left) + [] == x.rest + Concat(x.left);
    }
    NoEmptyChunk(cs);
  }

  // ----- a response without a chunk -----

  /** What the encoder writes for a response that was finished without a chunk: it
      counts the chunk number up before it chooses the form of the last chunk. */
  const EmptyResponse: seq<byte> := CRLF + [48] + CRLF + CRLF

  lemma FindInEmpty(input: seq<byte>)
    requires input <= [48] + CRLF + CRLF
    ensures FindLine(input) == if |input| < 3 then NoLine else At(1)
  {
    var future := ([48] + CRLF + CRLF)[|input|..];
    assert input + future == [48] + CRLF + CRLF;
    LineFirst([48], CRLF, input, future);
  }

  /** The parser at the trailer line of an empty response. */
  lemma TrailerLine(cap: nat, left: nat, input: seq<byte>)
    requires input <= [48] + CRLF + CRLF && |input| <= cap
    ensures var o := Process(cap, Parser(Trailer, left), input);
            if |input| < 3 && |input| < cap then o == Outcome(NeedMoreData, Parser(Trailer, left), input, [])
            else o.status == Error && o.body == []
  {
    FindInEmpty(input);
    if |input| >= 3 {
      assert input[..1] == [48] && TokenEnd([48]) == 1;
    }
  }

  lemma {:induction false} TrailerFails(cap: nat, left: nat, rest: seq<byte>, arrivals: seq<seq<byte>>)
    requires rest + Concat(arrivals) == [48] + CRLF + CRLF && |rest| < 3
    ensures var x := Receive(cap, Parser(Trailer, left), rest, arrivals); (x.Failed? || x.Overflow?) && x.body == []
    ensures cap >= 7 ==> Receive(cap, Parser(Trailer, left), rest, arrivals).Failed?
    decreases |arrivals|
  {
    assert arrivals != [];
    var input := rest + arrivals[0];
    assert input + Concat(arrivals[1..]) == [48] + CRLF + CRLF;
    if |input| <= cap {
      TrailerLine(cap, left, input);
      if |input| < cap && |input| < 3 {
        TrailerFails(cap, left, input, arrivals[1..]);
      }
    }
  }

  /** The parser at the first line of an empty response. */
  lemma EmptyHeader(cap: nat, left: nat, input: seq<byte>, future: seq<byte>)
    requires input + future == EmptyResponse
    ensures |input| < 2 ==>
              Process(cap, Parser(Header, left), input) == Outcome(NeedMoreData, Parser(Header, left), input, [])
    ensures |input| >= 2 ==>
              && Process(cap, Parser(Header, left), input) == Process(cap, Parser(Trailer, left), input[2..])
              && input[2..] + future == [48] + CRLF + CRLF
  {
    hide FindLine;
    var tail := [48] + CRLF + CRLF;
    assert input + future == [] + CRLF + tail;
    LineFirst([], tail, input, future);
    if |input| >= 2 {
      assert input[..0] == [] && ChunkSize([]) == 0;
      GoOn(cap, Parser(Header, left), input, Parser(Trailer, left), input[2..]);
    }
  }

  /** A response without a chunk is never received as complete, however it is cut:
      its zero-size header is read as a trailer line that has no colon. */
  lemma {:induction false} NoChunkFails(cap: nat, left: nat, rest: seq<byte>, arrivals: seq<seq<byte>>)
    requires rest + Concat(arrivals) == EmptyResponse && |rest| < 2
    ensures var x := Receive(cap, Parser(Header, left), rest, arrivals); (x.Failed? || x.Overflow?) && x.body == []
    ensures cap >= 7 ==> Receive(cap, Parser(Header, left), rest, arrivals).Failed?
    decreases |arrivals|
  {
    assert arrivals != [];
    hide Process;
    var input := rest + arrivals[0];
    assert input + Concat(arrivals[1..]) == rest + Concat(arrivals);
    EmptyHeader(cap, left, input, Concat(arrivals[1..]));
    if |input| < 2 {
      NoChunkFails(cap, left, input, arrivals[1..]);
    } else if |input| <= cap {
      var input' := input[2..];
      assert input' == (input' + Concat(arrivals[1..]))[..|input'|];
      TrailerLine(cap, left, input');
      if |input'| < 3 && |input'| < cap {
        TrailerFails(cap, left, input', arrivals[1..]);
      }
    }
  }
}
