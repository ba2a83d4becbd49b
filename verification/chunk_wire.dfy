/** The two sides of a chunked body (section 3.6.1 of RFC 2616) as functions on
    bytes: what webby puts on the wire, and what the parser of hutils/http.c does
    with the bytes that lie in its buffer. */
module ChunkWire {
  import opened Bf
  import opened Seqs

  // ----- hexadecimal numbers -----

  const LONG_MAX := 0x7FFF_FFFF_FFFF_FFFF

  function HexDigit(d: nat): byte
    requires d < 16
  {
    if d < 10 then 48 + d else 87 + d
  }

  /** The digits that the format %lx prints. */
  function Hex(n: nat): (s: seq<byte>)
    ensures 0 < |s|
  {
    if n < 16 then [HexDigit(n)] else Hex(n / 16) + [HexDigit(n % 16)]
  }

  predicate IsSpace(b: byte) {
    b == 32 || b == 9
  }

  predicate IsHex(b: byte) {
    48 <= b <= 57 || 97 <= b <= 102 || 65 <= b <= 70
  }

  function HexValue(b: byte): nat {
    if 48 <= b <= 57 then b - 48 else if 65 <= b <= 70 then b - 55 else if 97 <= b <= 102 then b - 87 else 0
  }

  function SkipSpaces(s: seq<byte>): (k: nat)
    ensures k <= |s|
  {
    if s == [] || !IsSpace(s[0]) then 0 else 1 + SkipSpaces(s[1..])
  }

  function HexRun(s: seq<byte>): (k: nat)
    ensures k <= |s|
  {
    if s == [] || !IsHex(s[0]) then 0 else 1 + HexRun(s[1..])
  }

  function ParseHex(s: seq<byte>): nat {
    if s == [] then 0 else 16 * ParseHex(s[..|s| - 1]) + HexValue(s[|s| - 1])
  }

  /** strtol with base 16 on a run of hexadecimal digits. */
  function Strtol(s: seq<byte>): nat {
    var v := ParseHex(s);
    if v > LONG_MAX then LONG_MAX else v
  }

  /** The size that the parser reads from a chunk header line. */
  function ChunkSize(line: seq<byte>): nat {
    var s := line[SkipSpaces(line)..];
    Strtol(s[..HexRun(s)])
  }

  lemma {:induction false} HexRunAll(s: seq<byte>)
    requires forall i :: 0 <= i < |s| ==> IsHex(s[i])
    ensures HexRun(s) == |s|
  {
    if s != [] {
      HexRunAll(s[1..]);
    }
  }

  lemma {:induction false} ParseOfHex(n: nat)
    ensures forall i :: 0 <= i < |Hex(n)| ==> IsHex(Hex(n)[i]) && !IsSpace(Hex(n)[i]) && Hex(n)[i] != CR
    ensures ParseHex(Hex(n)) == n
  {
    if n >= 16 {
      ParseOfHex(n / 16);
      assert Hex(n)[..|Hex(n)| - 1] == Hex(n / 16);
    }
  }

  /** Reading back a printed size: the parser is the inverse of the printer up to
      the largest long. */
  lemma ChunkSizeOfHex(n: nat)
    ensures ChunkSize(Hex(n)) == if n <= LONG_MAX then n else LONG_MAX
  {
    ParseOfHex(n);
    HexRunAll(Hex(n));
    assert Hex(n)[0..] == Hex(n) && Hex(n)[..|Hex(n)|] == Hex(n);
  }

  lemma {:induction false} HexLength(n: nat, digits: nat)
    requires 1 <= digits
    ensures |Hex(n)| <= digits <==> n < Pow16(digits)
  {
    if n >= 16 && digits > 1 {
      HexLength(n / 16, digits - 1);
    }
    if digits == 1 {
      assert Pow16(1) == 16 * Pow16(0);
    }
    Pow16Positive(digits - 1);
  }

  function Pow16(e: nat): nat {
    if e == 0 then 1 else 16 * Pow16(e - 1)
  }

  lemma Pow16Positive(e: nat)
    ensures 1 <= Pow16(e)
  {
  }

  // ----- what the encoder puts on the wire -----

  /** The wire form of a chunk list from the size of its first chunk on. */
  function Wire(cs: seq<seq<byte>>): seq<byte> {
    if cs == [] then [48] + CRLF + CRLF
    else Hex(|cs[0]|) + CRLF + cs[0] + CRLF + Wire(cs[1..])
  }

  /** The chunks without the final empty one. */
  function Chunks(cs: seq<seq<byte>>): seq<byte> {
    if cs == [] then [] else Hex(|cs[0]|) + CRLF + cs[0] + CRLF + Chunks(cs[1..])
  }

  lemma {:induction false} ChunksSnoc(cs: seq<seq<byte>>, c: seq<byte>)
    ensures Chunks(cs + [c]) == Chunks(cs) + Hex(|c|) + CRLF + c + CRLF
  {
    if cs == [] {
      assert [c][1..] == [];
    } else {
      assert (cs + [c])[1..] == cs[1..] + [c];
      ChunksSnoc(cs[1..], c);
    }
  }

  lemma {:induction false} WireOfChunks(cs: seq<seq<byte>>)
    ensures Wire(cs) == Chunks(cs) + [48] + CRLF + CRLF
  {
    if cs != [] {
      WireOfChunks(cs[1..]);
    }
  }

  // ----- what the parser does with the bytes in its buffer -----

  datatype State = Header | Data | EofAfterData | Trailer | RequestLine
  datatype Parser = Parser(state: State, contentLeft: nat)

  /** Unspecified: the line search ran past the received bytes. */
  datatype Status = Error | Completed | NeedMoreData | Unspecified

  datatype Outcome = Outcome(status: Status, parser: Parser, rest: seq<byte>, body: seq<byte>)

  predicate IsCtlOrSpace(b: byte) {
    b <= 32 || b == 127
  }

  /** The end of a header name. */
  function TokenEnd(line: seq<byte>): (k: nat)
    ensures k <= |line|
  {
    if line == [] || IsCtlOrSpace(line[0]) || line[0] == 58 then 0 else 1 + TokenEnd(line[1..])
  }

  /** HTTP_parse_header_line accepts a line that starts with a name and a colon. */
  predicate HeaderLineOk(line: seq<byte>) {
    line != [] && !IsSpace(line[0]) && TokenEnd(line) < |line| && line[TokenEnd(line)] == 58
  }

  /** The work between two jumps of the parser: a call either stops, or goes on in
      another state after it delivered body. */
  datatype Turn = Stop(o: Outcome) | Go(parser: Parser, rest: seq<byte>, body: seq<byte>)

  function HeaderTurn(p: Parser, input: seq<byte>): (t: Turn)
    ensures t.Go? ==> |t.rest| < |input|
  {
    match FindLine(input)
    case NoLine => Stop(Outcome(NeedMoreData, p, input, []))
    case Overrun => Stop(Outcome(Unspecified, p, input, []))
    case At(k) =>
      LineIn(input);
      var val := ChunkSize(input[..k]);
      Go(if val != 0 then Parser(Data, val) else p.(state := Trailer), input[k + 2..], [])
  }

  function DataTurn(p: Parser, input: seq<byte>): (t: Turn)
    ensures t.Go? ==> |t.rest| < |input|
  {
    if input == [] then Stop(Outcome(NeedMoreData, p, input, []))
    else if p.contentLeft == 0 then Stop(Outcome(Error, p, input, []))
    else if |input| < p.contentLeft then
      Stop(Outcome(NeedMoreData, Parser(Data, p.contentLeft - |input|), [], input))
    else Go(Parser(EofAfterData, 0), input[p.contentLeft..], input[..p.contentLeft])
  }

  function EofTurn(p: Parser, input: seq<byte>): (t: Turn)
    ensures t.Go? ==> |t.rest| < |input|
  {
    match FindLine(input)
    case NoLine => Stop(Outcome(NeedMoreData, p, input, []))
    case Overrun => Stop(Outcome(Unspecified, p, input, []))
    case At(k) =>
      LineIn(input);
      Go(p.(state := Header), input[k + 2..], [])
  }

  function TrailerTurn(cap: nat, p: Parser, input: seq<byte>): (o: Outcome) {
    match FindLine(input)
    case NoLine => Outcome(if |input| == cap then Error else NeedMoreData, p, input, [])
    case Overrun => Outcome(Unspecified, p, input, [])
    case At(k) =>
      LineIn(input);
      var line := input[..k];
      Outcome(if line == [] || line[0] == 0 then Completed else if HeaderLineOk(line) then NeedMoreData else Error,
              p, input[k + 2..], [])
  }

  function TurnOf(cap: nat, p: Parser, input: seq<byte>): (t: Turn)
    ensures t.Go? ==> |t.rest| < |input|
  {
    match p.state
    case Header => HeaderTurn(p, input)
    case Data => DataTurn(p, input)
    case EofAfterData => EofTurn(p, input)
    case Trailer => Stop(TrailerTurn(cap, p, input))
    case RequestLine => Stop(Outcome(Error, p, input, []))
  }

  /** One call of the parser on the buffer content `input`; cap is the size of the
      buffer. */
  function Process(cap: nat, p: Parser, input: seq<byte>): (o: Outcome)
    decreases |input|
  {
    match TurnOf(cap, p, input)
    case Stop(o) => o
    case Go(p', rest, body) =>
      var o := Process(cap, p', rest);
      o.(body := body + o.body)
  }

  /** A jump that delivers nothing. */
  lemma GoOn(cap: nat, p: Parser, input: seq<byte>, p': Parser, rest: seq<byte>)
    requires TurnOf(cap, p, input) == Go(p', rest, [])
    ensures Process(cap, p, input) == Process(cap, p', rest)
  {
    assert [] + Process(cap, p', rest).body == Process(cap, p', rest).body;
  }

  lemma LineIn(input: seq<byte>)
    ensures FindLine(input).At? ==> CrlfAt(input, FindLine(input).k)
  {
    FindLineMeaning(input);
  }

  // ----- the round trip -----

  /** What is still to come at a point of a well-formed stream.  `after` in Last is
      what follows the line end that completes the body. */
  datatype Rest =
    | AtHeader(cs: seq<seq<byte>>)
    | AtData(d: seq<byte>, cs: seq<seq<byte>>)
    | AtEof(cs: seq<seq<byte>>)
    | Last(after: seq<byte>)

  function RestWire(r: Rest): seq<byte> {
    match r
    case AtHeader(cs) => Wire(cs)
    case AtData(d, cs) => d + (CRLF + Wire(cs))
    case AtEof(cs) => CRLF + Wire(cs)
    case Last(after) => CRLF + after
  }

  /** The chunks before the first empty one: a chunk of size zero is the last
      chunk of the wire format. */
  function Effective(cs: seq<seq<byte>>): seq<seq<byte>> {
    if cs == [] || cs[0] == [] then [] else [cs[0]] + Effective(cs[1..])
  }

  /** The part of the wire behind the line end that completes the body. */
  function Unread(cs: seq<seq<byte>>): seq<byte> {
    if cs == [] then [] else if cs[0] == [] then Wire(cs[1..]) else Unread(cs[1..])
  }

  function RestBody(r: Rest): seq<byte> {
    match r
    case AtHeader(cs) => Concat(Effective(cs))
    case AtData(d, cs) => d + Concat(Effective(cs))
    case AtEof(cs) => Concat(Effective(cs))
    case Last(_) => []
  }

  function RestUnread(r: Rest): seq<byte> {
    match r
    case AtHeader(cs) => Unread(cs)
    case AtData(_, cs) => Unread(cs)
    case AtEof(cs) => Unread(cs)
    case Last(after) => after
  }

  ghost predicate Sizes(cs: seq<seq<byte>>) {
    forall c :: c in cs ==> |c| <= LONG_MAX
  }

  /** The parser p stands at the point r of a stream. */
  ghost predicate Stands(p: Parser, r: Rest) {
    match r
    case AtHeader(cs) => p.state == Header && Sizes(cs)
    case AtData(d, cs) => p.state == Data && p.contentLeft == |d| && d != [] && Sizes(cs)
    case AtEof(cs) => p.state == EofAfterData && Sizes(cs)
    case Last(_) => p.state == Trailer
  }

  /** A prefix of a wire that starts with a line: the line is found as soon as it
      is there, and before that the search stays inside the prefix. */
  lemma LineFirst(line: seq<byte>, tail: seq<byte>, input: seq<byte>, future: seq<byte>)
    requires forall i :: 0 <= i < |line| ==> line[i] != CR
    requires input + future == line + CRLF + tail
    ensures |input| < |line| + 2 ==> FindLine(input) == NoLine
    ensures |input| >= |line| + 2 ==>
              FindLine(input) == At(|line|) && input[..|line|] == line && input[|line| + 2..] + future == tail
  {
    var w := line + CRLF + tail;
    assert forall i :: 0 <= i < |input| ==> input[i] == (input + future)[i] == w[i];
    assert forall i :: 0 <= i < |line| ==> w[i] == line[i];
    assert w[|line|] == CR && w[|line| + 1] == LF;
    FirstCrMeaning(input, 0);
    if |input| >= |line| + 2 {
      assert FirstCr(input, 0) == |line|;
      assert input[|line| + 2..] + future == w[|line| + 2..] == tail;
    } else if |input| >= 2 {
      assert FirstCr(input, 0) >= |input| - 1;
    }
  }

  /** How many more bytes complete the body. */
  function Need(r: Rest): int {
    |RestWire(r)| - |RestUnread(r)|
  }

  lemma {:induction false} UnreadIsSuffix(cs: seq<seq<byte>>)
    ensures |Unread(cs)| + 5 <= |Wire(cs)|
  {
    if cs != [] && cs[0] != [] {
      UnreadIsSuffix(cs[1..]);
    }
  }

  /** The outcome o of a call on n bytes at point r is right: it completes exactly
      when the bytes hold the completing line end, with the body and the unread
      bytes that belong to r; otherwise the parser stands at the later point r' of
      the same stream, with less than a line left. */
  ghost predicate Right(o: Outcome, n: nat, r: Rest, r': Rest, future: seq<byte>) {
    if n >= Need(r) then o.status == Completed && o.body == RestBody(r) && o.rest + future == RestUnread(r)
    else
      && o.status == NeedMoreData && Stands(o.parser, r') && o.rest + future == RestWire(r')
      && o.body + RestBody(r') == RestBody(r) && RestUnread(r') == RestUnread(r) && |o.rest| <= 17
  }

  lemma {:induction false} ProcessStep(cap: nat, p: Parser, r: Rest, input: seq<byte>, future: seq<byte>)
    returns (r': Rest)
    requires Stands(p, r) && input + future == RestWire(r) && 2 <= cap
    ensures Right(Process(cap, p, input), |input|, r, r', future)
    decreases |input|, 1
  {
    match r {
      case AtHeader(cs) => r' := HeaderStep(cap, p, cs, input, future);
      case AtData(d, cs) => r' := DataStep(cap, p, d, cs, input, future);
      case AtEof(cs) => r' := EofStep(cap, p, cs, input, future);
      case Last(after) =>
        r' := r;
        assert input + future == [] + CRLF + after;
        LineFirst([], after, input, future);
    }
  }

  lemma {:induction false} EofStep(cap: nat, p: Parser, cs: seq<seq<byte>>, input: seq<byte>, future: seq<byte>)
    returns (r': Rest)
    requires Stands(p, AtEof(cs)) && input + future == CRLF + Wire(cs) && 2 <= cap
    ensures Right(Process(cap, p, input), |input|, AtEof(cs), r', future)
    decreases |input|, 0
  {
    r' := AtEof(cs);
    UnreadIsSuffix(cs);
    assert input + future == [] + CRLF + Wire(cs);
    LineFirst([], Wire(cs), input, future);
    if |input| >= 2 {
      GoOn(cap, p, input, p.(state := Header), input[2..]);
      r' := ProcessStep(cap, p.(state := Header), AtHeader(cs), input[2..], future);
    }
  }

  lemma {:induction false} DataStep(
    cap: nat, p: Parser, d: seq<byte>, cs: seq<seq<byte>>, input: seq<byte>, future: seq<byte>)
    returns (r': Rest)
    requires Stands(p, AtData(d, cs)) && input + future == d + (CRLF + Wire(cs)) && 2 <= cap
    ensures Right(Process(cap, p, input), |input|, AtData(d, cs), r', future)
    decreases |input|, 0
  {
    Split(input, future, d, CRLF + Wire(cs));
    if |input| < |d| {
      r' := AtData(d[|input|..], cs);
      DataPart(cap, p, d, cs, input, future);
    } else {
      r' := ProcessStep(cap, Parser(EofAfterData, 0), AtEof(cs), input[|d|..], future);
      var o := Process(cap, Parser(EofAfterData, 0), input[|d|..]);
      assert Process(cap, p, input) == o.(body := d + o.body);
      PrependBody(o, |input| - |d|, d, cs, r', future);
    }
  }

  /** Part of a chunk's data is delivered and counted off. */
  lemma DataPart(cap: nat, p: Parser, d: seq<byte>, cs: seq<seq<byte>>, input: seq<byte>, future: seq<byte>)
    requires Stands(p, AtData(d, cs)) && |input| < |d|
    requires d == input + d[|input|..] && future == d[|input|..] + (CRLF + Wire(cs))
    ensures Right(Process(cap, p, input), |input|, AtData(d, cs), AtData(d[|input|..], cs), future)
  {
    UnreadIsSuffix(cs);
    var tail := Concat(Effective(cs));
    if input == [] {
      assert d[0..] == d;
    }
    assert input + (d[|input|..] + tail) == (input + d[|input|..]) + tail;
  }

  lemma PrependBody(o: Outcome, n: nat, d: seq<byte>, cs: seq<seq<byte>>, r': Rest, future: seq<byte>)
    requires Right(o, n, AtEof(cs), r', future)
    ensures Right(o.(body := d + o.body), n + |d|, AtData(d, cs), r', future)
  {
    hide RestBody, RestUnread, RestWire, Need, Stands;
    DataBeforeEof(d, cs);
    assert d + (o.body + RestBody(r')) == (d + o.body) + RestBody(r');
  }

  lemma DataBeforeEof(d: seq<byte>, cs: seq<seq<byte>>)
    ensures Need(AtData(d, cs)) == |d| + Need(AtEof(cs)) && RestUnread(AtData(d, cs)) == RestUnread(AtEof(cs))
    ensures RestBody(AtData(d, cs)) == d + RestBody(AtEof(cs))
  {
    hide Concat, Effective, Unread, Wire;
  }

  /** Two ways to cut one sequence. */
  lemma Split(a: seq<byte>, b: seq<byte>, c: seq<byte>, d: seq<byte>)
    requires a + b == c + d
    ensures |a| < |c| ==> c == a + c[|a|..] && b == c[|a|..] + d
    ensures |a| >= |c| ==> a[..|c|] == c && a[|c|..] + b == d
  {
    if |a| < |c| {
      assert c == (a + b)[..|c|];
      assert b == (c + d)[|a|..];
    } else {
      assert (a + b)[..|c|] == a[..|c|];
      assert (a + b)[|c|..] == a[|c|..] + b;
    }
  }

  lemma {:induction false} HeaderStep(cap: nat, p: Parser, cs: seq<seq<byte>>, input: seq<byte>, future: seq<byte>)
    returns (r': Rest)
    requires Stands(p, AtHeader(cs)) && input + future == Wire(cs) && 2 <= cap
    ensures Right(Process(cap, p, input), |input|, AtHeader(cs), r', future)
    decreases |input|, 0
  {
    var n, next := AfterHeader(cs);
    var k := |Hex(n)|;
    LineOfHeader(n, RestWire(next), input, future);
    if |input| >= k + 2 {
      var q := if n == 0 then Parser(Trailer, p.contentLeft) else Parser(Data, n);
      GoOn(cap, p, input, q, input[k + 2..]);
      r' := ProcessStep(cap, q, next, input[k + 2..], future);
      assert |Wire(cs)| == k + 2 + |RestWire(next)|;
    } else {
      r' := AtHeader(cs);
      UnreadIsSuffix(cs);
      assert RestBody(r') == [] + RestBody(r');
      assert |Wire(cs)| == k + 2 + |RestWire(next)|;
      NeedsLine(next);
    }
  }

  lemma NeedsLine(r: Rest)
    ensures 0 <= Need(r)
  {
    match r {
      case AtHeader(cs) => UnreadIsSuffix(cs);
      case AtData(_, cs) => UnreadIsSuffix(cs);
      case AtEof(cs) => UnreadIsSuffix(cs);
      case Last(_) =>
    }
  }

  /** The first line of a wire whose header says n. */
  lemma LineOfHeader(n: nat, tail: seq<byte>, input: seq<byte>, future: seq<byte>)
    requires n <= LONG_MAX && input + future == Hex(n) + CRLF + tail
    ensures |Hex(n)| <= 16
    ensures |input| < |Hex(n)| + 2 ==> FindLine(input) == NoLine
    ensures |input| >= |Hex(n)| + 2 ==>
              && FindLine(input) == At(|Hex(n)|)
              && ChunkSize(input[..|Hex(n)|]) == n && input[|Hex(n)| + 2..] + future == tail
  {
    ChunkSizeOfHex(n);
    ParseOfHex(n);
    DigitsOfLong(n);
    LineFirst(Hex(n), tail, input, future);
  }

  /** The header line of a chunk list and the point behind it. */
  lemma AfterHeader(cs: seq<seq<byte>>) returns (n: nat, next: Rest)
    requires Sizes(cs)
    ensures n <= LONG_MAX
    ensures Wire(cs) == Hex(n) + CRLF + RestWire(next)
    ensures RestBody(next) == RestBody(AtHeader(cs)) && RestUnread(next) == Unread(cs)
    ensures if n == 0 then next.Last? else next.AtData? && |next.d| == n && Sizes(next.cs)
  {
    if cs == [] || cs[0] == [] {
      n, next := 0, Last(Unread(cs));
      if cs != [] {
        assert Wire(cs) == Hex(0) + CRLF + [] + CRLF + Wire(cs[1..]);
        assert Wire(cs) == Hex(0) + CRLF + RestWire(next);
      }
    } else {
      n, next := |cs[0]|, AtData(cs[0], cs[1..]);
      assert cs[0] in cs;
      assert Wire(cs) == Hex(n) + CRLF + (cs[0] + (CRLF + Wire(cs[1..])));
    }
  }

  lemma DigitsOfLong(n: nat)
    ensures n <= LONG_MAX ==> |Hex(n)| <= 16
  {
    HexLength(n, 16);
    assert Pow16(16) == 0x1_0000_0000_0000_0000 by {
      assert Pow16(4) == 0x1_0000;
      assert Pow16(8) == 0x1_0000_0000;
      assert Pow16(12) == 0x1_0000_0000_0000;
    }
  }
}
