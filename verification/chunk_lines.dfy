/** The decoder of chunked bodies on lines and streams that need not come from the
    encoder of the same repository. */
module ChunkLines {
  import opened Bf
  import opened ChunkWire
  import opened ChunkRoundTrip
  import opened Seqs

  // ----- digits -----

  const LOWER := "0123456789abcdef"
  const UPPER := "0123456789ABCDEF"

  /** b is one of the ways to write the digit d. */
  predicate Writes(b: byte, d: nat) {
    d < 16 && (b == LOWER[d] as int || b == UPPER[d] as int)
  }

  predicate WritesAll(run: seq<byte>, ds: seq<nat>) {
    |run| == |ds| && forall i :: 0 <= i < |run| ==> Writes(run[i], ds[i])
  }

  /** The number of a row of digits: each counts as often as its place says. */
  function Base16(ds: seq<nat>): nat {
    if ds == [] then 0 else ds[0] * Pow16(|ds| - 1) + Base16(ds[1..])
  }

  lemma {:induction false} Base16Snoc(ds: seq<nat>, d: nat)
    ensures Base16(ds + [d]) == 16 * Base16(ds) + d
  {
    if ds == [] {
      assert ds + [d] == [d] && Base16([d][1..]) == 0;
      assert Pow16(0) == 1;
    } else {
      assert (ds + [d])[1..] == ds[1..] + [d];
      Base16Snoc(ds[1..], d);
      assert Pow16(|ds|) == 16 * Pow16(|ds| - 1);
      assert ds[0] * (16 * Pow16(|ds| - 1)) == 16 * (ds[0] * Pow16(|ds| - 1));
    }
  }

  lemma DigitAt(d: nat)
    requires d < 16
    ensures LOWER[d] as int == (if d < 10 then 48 + d else 87 + d)
    ensures UPPER[d] as int == (if d < 10 then 48 + d else 55 + d)
  {
  }

  /** A digit in either case, and nothing else, is taken for one, with its place in the
      row of digits as its value. */
  lemma DigitMeaning(b: byte)
    ensures IsHex(b) <==> exists d: nat :: Writes(b, d)
    ensures forall d: nat :: Writes(b, d) ==> HexValue(b) == d
  {
    hide LOWER, UPPER;
    forall d: nat | d < 16 ensures Writes(b, d) <==> IsHex(b) && HexValue(b) == d {
      DigitAt(d);
    }
    if IsHex(b) {
      assert Writes(b, HexValue(b));
    }
  }

  lemma DigitPrints(d: nat)
    requires d < 16
    ensures HexDigit(d) == LOWER[d] as int
  {
  }

  /** What is printed of a number: its digits in lower case, without leading zeros. */
  lemma {:induction false} HexPrints(n: nat) returns (ds: seq<nat>)
    ensures |ds| == |Hex(n)| && Base16(ds) == n && (n > 0 ==> ds[0] > 0)
    ensures forall i :: 0 <= i < |ds| ==> ds[i] < 16 && Hex(n)[i] == LOWER[ds[i]] as int
  {
    hide HexDigit, Base16;
    var high: seq<nat> := [];
    if n >= 16 {
      high := HexPrints(n / 16);
    } else {
      assert Base16([]) == 0 by {
        NoDigits();
      }
    }
    ds := high + [n % 16];
    Base16Snoc(high, n % 16);
    DigitPrints(n % 16);
  }

  lemma NoDigits()
    ensures Base16([]) == 0
  {
  }

  lemma LastDigit(run: seq<byte>, ds: seq<nat>)
    requires WritesAll(run, ds) && run != []
    ensures var m := |run| - 1;
            && |ds| == m + 1 && WritesAll(run[..m], ds[..m]) && Writes(run[m], ds[m]) && ds == ds[..m] + [ds[m]]
  {
    hide Writes;
  }

  lemma LastValue(run: seq<byte>)
    requires run != []
    ensures var m := |run| - 1; ParseHex(run) == 16 * ParseHex(run[..m]) + HexValue(run[m])
  {
    hide HexValue;
  }

  lemma {:induction false} ParseDigits(run: seq<byte>, ds: seq<nat>)
    requires WritesAll(run, ds)
    ensures ParseHex(run) == Base16(ds)
  {
    if run != [] {
      LastDigit(run, ds);
      LastValue(run);
      hide Writes, WritesAll, Base16, HexValue, ParseHex;
      var m := |run| - 1;
      ParseDigits(run[..m], ds[..m]);
      Base16Snoc(ds[..m], ds[m]);
      DigitMeaning(run[m]);
    }
  }

  lemma {:induction false} SkipAll(spaces: seq<byte>, t: seq<byte>)
    requires forall i :: 0 <= i < |spaces| ==> spaces[i] == ' ' as int || spaces[i] == '\t' as int
    requires t == [] || (t[0] != ' ' as int && t[0] != '\t' as int)
    ensures SkipSpaces(spaces + t) == |spaces|
  {
    if spaces == [] {
      assert spaces + t == t;
    } else {
      assert (spaces + t)[1..] == spaces[1..] + t;
      SkipAll(spaces[1..], t);
    }
  }

  lemma {:induction false} RunAll(run: seq<byte>, t: seq<byte>)
    requires forall i :: 0 <= i < |run| ==> IsHex(run[i])
    requires t == [] || !IsHex(t[0])
    ensures HexRun(run + t) == |run|
  {
    if run == [] {
      assert run + t == t;
    } else {
      assert (run + t)[1..] == run[1..] + t;
      RunAll(run[1..], t);
    }
  }

  /** The size in a header line: of spaces, a run of digits in either case and a rest
      that does not go on with one, it is the number of the run, cut at the largest
      long. */
  lemma ChunkSizeOfLine(spaces: seq<byte>, run: seq<byte>, ds: seq<nat>, rest: seq<byte>)
    requires forall i :: 0 <= i < |spaces| ==> spaces[i] == ' ' as int || spaces[i] == '\t' as int
    requires WritesAll(run, ds)
    requires rest != [] ==> forall d: nat :: !Writes(rest[0], d)
    requires run == [] && rest != [] ==> rest[0] != ' ' as int && rest[0] != '\t' as int
    ensures ChunkSize(spaces + run + rest) == if Base16(ds) < 0x8000_0000_0000_0000 then Base16(ds)
                                                  else 0x7FFF_FFFF_FFFF_FFFF
  {
    hide Writes, HexValue, IsHex;
    var line, s := spaces + run + rest, run + rest;
    forall i | 0 <= i < |run| ensures IsHex(run[i]) {
      assert Writes(run[i], ds[i]);
      DigitMeaning(run[i]);
    }
    if rest != [] {
      DigitMeaning(rest[0]);
    }
    NoSpace(run, ds);
    assert line == spaces + s;
    SkipAll(spaces, s);
    RunAll(run, rest);
    assert line[|spaces|..] == s && s[..|run|] == run;
    ParseDigits(run, ds);
  }

  lemma NoSpace(run: seq<byte>, ds: seq<nat>)
    requires WritesAll(run, ds)
    ensures run != [] ==> run[0] != ' ' as int && run[0] != '\t' as int
  {
  }

  // ----- header lines -----

  /** Nothing of a name is a control character or a space, and a colon ends it. */
  predicate NamedTo(line: seq<byte>, k: nat) {
    k < |line| && line[k] == ':' as int
    && forall i :: 0 <= i < k ==> 32 < line[i] && line[i] != 127 && line[i] != ':' as int
  }

  lemma {:induction false} TokenEndIs(line: seq<byte>, from: nat, k: nat)
    requires NamedTo(line, k) && from <= k
    ensures TokenEnd(line[from..]) == k - from
    decreases k - from
  {
    if from < k {
      assert line[from..][1..] == line[from + 1..];
      TokenEndIs(line, from + 1, k);
    }
  }

  lemma {:induction false} TokenEndMeans(line: seq<byte>)
    ensures forall i :: 0 <= i < TokenEnd(line) ==> 32 < line[i] && line[i] != 127 && line[i] != ':' as int
  {
    if line != [] && !IsCtlOrSpace(line[0]) && line[0] != 58 {
      TokenEndMeans(line[1..]);
      assert forall i :: 0 < i < TokenEnd(line) ==> line[i] == line[1..][i - 1];
    }
  }

  /** A header line is accepted exactly when it has a colon with nothing but a name in
      front of it. */
  lemma HeaderLineMeaning(line: seq<byte>)
    ensures HeaderLineOk(line) <==> exists k: nat :: NamedTo(line, k)
    ensures forall k: nat :: NamedTo(line, k) ==> TokenEnd(line) == k
  {
    hide TokenEnd;
    TokenEndMeans(line);
    forall k: nat | NamedTo(line, k) ensures TokenEnd(line) == k && HeaderLineOk(line) {
      TokenEndIs(line, 0, k);
      assert line[0..] == line;
    }
    if HeaderLineOk(line) {
      assert NamedTo(line, TokenEnd(line));
    }
  }

  // ----- streams -----

  /** A chunk with its header line, and what stands between its data and the line end. */
  datatype Piece = Piece(line: seq<byte>, data: seq<byte>, junk: seq<byte>)

  ghost predicate NoCr(s: seq<byte>) {
    forall i :: 0 <= i < |s| ==> s[i] != CR
  }

  ghost predicate PieceOk(c: Piece) {
    NoCr(c.line) && NoCr(c.junk) && ChunkSize(c.line) == |c.data| > 0
  }

  function Stream(cs: seq<Piece>): seq<byte> {
    if cs == [] then [] else cs[0].line + CRLF + cs[0].data + cs[0].junk + CRLF + Stream(cs[1..])
  }

  function Body(cs: seq<Piece>): seq<byte> {
    if cs == [] then [] else cs[0].data + Body(cs[1..])
  }

  /** A line that is all there. */
  lemma WholeLine(line: seq<byte>, tail: seq<byte>)
    requires NoCr(line)
    ensures FindLine(line + CRLF + tail) == At(|line|)
    ensures (line + CRLF + tail)[..|line|] == line && (line + CRLF + tail)[|line| + 2..] == tail
  {
    var input := line + CRLF + tail;
    assert input + [] == input;
    LineFirst(line, tail, input, []);
  }

  /** One chunk goes through: its data is delivered, whatever else its header line holds
      and whatever stands in front of the line end behind the data. */
  lemma PieceGoes(cap: nat, p: Parser, c: Piece, x: seq<byte>)
    requires p.state == Header && PieceOk(c)
    ensures var o := Process(cap, Parser(Header, 0), x);
            Process(cap, p, c.line + CRLF + c.data + c.junk + CRLF + x) == o.(body := c.data + o.body)
  {
    hide FindLine, ChunkSize, Process;
    var afterData := c.junk + CRLF + x;
    var data := c.data + afterData;
    assert c.line + CRLF + c.data + c.junk + CRLF + x == c.line + CRLF + data;
    WholeLine(c.line, data);
    GoOn(cap, p, c.line + CRLF + data, Parser(Data, |c.data|), data);
    DataGoes(cap, c.data, afterData);
    WholeLine(c.junk, x);
    GoOn(cap, Parser(EofAfterData, 0), afterData, Parser(Header, 0), x);
  }

  lemma DataGoes(cap: nat, data: seq<byte>, tail: seq<byte>)
    requires data != []
    ensures var o := Process(cap, Parser(EofAfterData, 0), tail);
            Process(cap, Parser(Data, |data|), data + tail) == o.(body := data + o.body)
  {
    assert (data + tail)[..|data|] == data && (data + tail)[|data|..] == tail;
  }

  /** Any chunks in any of their forms, up to the header of the last one, are delivered,
      and the parser goes on with the trailer. */
  lemma {:induction false} AnyStream(cap: nat, p: Parser, cs: seq<Piece>, last: seq<byte>, trailer: seq<byte>)
    requires p.state == Header && (forall c :: c in cs ==> PieceOk(c)) && NoCr(last) && ChunkSize(last) == 0
    ensures var q := Parser(Trailer, if cs == [] then p.contentLeft else 0);
            var o := Process(cap, q, trailer);
            Process(cap, p, Stream(cs) + last + CRLF + trailer) == o.(body := Body(cs) + o.body)
    decreases |cs|
  {
    hide FindLine, ChunkSize, Process, PieceOk;
    var q := Parser(Trailer, if cs == [] then p.contentLeft else 0);
    var o := Process(cap, q, trailer);
    if cs == [] {
      assert [] + last == last;
      WholeLine(last, trailer);
      GoOn(cap, p, last + CRLF + trailer, q, trailer);
      assert [] + o.body == o.body;
    } else {
      var c, x := cs[0], Stream(cs[1..]) + last + CRLF + trailer;
      AnyStream(cap, Parser(Header, 0), cs[1..], last, trailer);
      PieceGoes(cap, p, c, x);
      Regroup(c, Stream(cs[1..]), last, trailer);
      assert c.data + (Body(cs[1..]) + o.body) == Body(cs) + o.body;
    }
  }

  lemma Regroup(c: Piece, stream: seq<byte>, last: seq<byte>, trailer: seq<byte>)
    ensures (c.line + CRLF + c.data + c.junk + CRLF + stream) + last + CRLF + trailer ==
            c.line + CRLF + c.data + c.junk + CRLF + (stream + last + CRLF + trailer)
  {
  }

  // ----- cuts -----

  /** A line that was found is found when more bytes are there. */
  lemma SameLine(a: seq<byte>, b: seq<byte>)
    requires FindLine(a).At?
    ensures FindLine(a + b) == FindLine(a)
    ensures var k := FindLine(a).k; k + 2 <= |a| && (a + b)[..k] == a[..k] && (a + b)[k + 2..] == a[k + 2..] + b
  {
    hide FindLine;
    FindLineMeaning(a);
    FindLineMeaning(a + b);
    var k := FindLine(a).k;
    assert CrlfAt(a + b, k);
    forall j: nat | j < k ensures !CrlfAt(a + b, j) {
      assert !CrlfAt(a, j);
    }
  }

  /** For all bytes, well-formed or not: a call that needs more data, not in the trailer,
      and a call with more behind what it left, do together what one call does. */
  lemma {:induction false} Resumes(cap: nat, p: Parser, a: seq<byte>, b: seq<byte>)
    requires Process(cap, p, a).status == NeedMoreData && Process(cap, p, a).parser.state != Trailer
    ensures var o := Process(cap, p, a);
            var o' := Process(cap, o.parser, o.rest + b);
            Process(cap, p, a + b) == o'.(body := o.body + o'.body)
    decreases |a|
  {
    hide TurnOf;
    match TurnOf(cap, p, a) {
      case Stop(o) => StopResumes(cap, p, a, b);
      case Go(q, rest, body) =>
        TurnLess(cap, p, a);
        Resumes(cap, q, rest, b);
        TurnResumes(cap, p, a, b);
        var o := Process(cap, q, rest);
        var o' := Process(cap, o.parser, o.rest + b);
        assert body + (o.body + o'.body) == (body + o.body) + o'.body;
    }
  }

  lemma TurnLess(cap: nat, p: Parser, a: seq<byte>)
    requires TurnOf(cap, p, a).Go?
    ensures |TurnOf(cap, p, a).rest| < |a|
  {
  }

  lemma StopResumes(cap: nat, p: Parser, a: seq<byte>, b: seq<byte>)
    requires TurnOf(cap, p, a).Stop? && TurnOf(cap, p, a).o.status == NeedMoreData
    requires TurnOf(cap, p, a).o.parser.state != Trailer
    ensures var o := TurnOf(cap, p, a).o;
            var o' := Process(cap, o.parser, o.rest + b);
            Process(cap, p, a + b) == o'.(body := o.body + o'.body)
  {
    hide Process, FindLine, ChunkSize, HeaderLineOk;
    if p.state == Data && a != [] {
      DataResumes(cap, p.contentLeft, a, b);
      assert [] + b == b;
    } else {
      var o' := Process(cap, p, a + b);
      assert [] + o'.body == o'.body;
    }
  }

  lemma TurnResumes(cap: nat, p: Parser, a: seq<byte>, b: seq<byte>)
    requires TurnOf(cap, p, a).Go?
    ensures var t := TurnOf(cap, p, a); TurnOf(cap, p, a + b) == Go(t.parser, t.rest + b, t.body)
  {
    hide FindLine, ChunkSize;
    if p.state == Data {
      var n := p.contentLeft;
      assert (a + b)[n..] == a[n..] + b && (a + b)[..n] == a[..n];
    } else {
      SameLine(a, b);
    }
  }

  lemma DataResumes(cap: nat, n: nat, a: seq<byte>, b: seq<byte>)
    requires a != [] && |a| < n
    ensures var o' := Process(cap, Parser(Data, n - |a|), b);
            Process(cap, Parser(Data, n), a + b) == o'.(body := a + o'.body)
  {
    var m := n - |a|;
    if b == [] {
      assert a + b == a;
    } else if |b| >= m {
      assert (a + b)[..n] == a + b[..m] && (a + b)[n..] == b[m..];
      var o := Process(cap, Parser(EofAfterData, 0), b[m..]);
      assert (a + b[..m]) + o.body == a + (b[..m] + o.body);
    }
  }

  /** In the trailer a call stays in it. */
  lemma TrailerStays(cap: nat, p: Parser, input: seq<byte>)
    requires p.state == Trailer
    ensures Process(cap, p, input).parser.state == Trailer
  {
    hide FindLine, HeaderLineOk;
  }

  lemma {:induction false} ReceiveStays(cap: nat, p: Parser, rest: seq<byte>, arrivals: seq<seq<byte>>)
    requires p.state == Trailer && Receive(cap, p, rest, arrivals).Pending?
    ensures Receive(cap, p, rest, arrivals).parser.state == Trailer
    decreases |arrivals|
  {
    hide Process;
    if arrivals != [] {
      var o := Process(cap, p, rest + arrivals[0]);
      TrailerStays(cap, p, rest + arrivals[0]);
      ReceiveStays(cap, o.parser, o.rest, arrivals[1..]);
    }
  }

  /** So it does not matter how a stream is cut, as long as the reception waits in front of
      the trailer: all bytes in one call make the same. */
  lemma {:induction false} CutsDoNotMatter(cap: nat, p: Parser, rest: seq<byte>, arrivals: seq<seq<byte>>)
    requires arrivals != [] && Receive(cap, p, rest, arrivals).Pending?
    requires Receive(cap, p, rest, arrivals).parser.state != Trailer
    ensures var x := Receive(cap, p, rest, arrivals);
            Process(cap, p, rest + Concat(arrivals)) == Outcome(NeedMoreData, x.parser, x.rest, x.body)
    decreases |arrivals|
  {
    hide Process, Concat;
    var o, later := Process(cap, p, rest + arrivals[0]), arrivals[1..];
    assert rest + Concat(arrivals) == (rest + arrivals[0]) + Concat(later) by {
      ConcatAround(arrivals, 0);
      assert arrivals[..0] == [] && Concat(arrivals[..0]) == [] by {
        NoParts();
      }
    }
    if later == [] {
      NoParts();
      assert (rest + arrivals[0]) + [] == rest + arrivals[0];
      assert o.body + [] == o.body;
    } else {
      if o.parser.state == Trailer {
        ReceiveStays(cap, o.parser, o.rest, later);
      }
      CutsDoNotMatter(cap, o.parser, o.rest, later);
      Resumes(cap, p, rest + arrivals[0], Concat(later));
    }
  }

  lemma NoParts()
    ensures Concat<byte>([]) == []
  {
  }
}
