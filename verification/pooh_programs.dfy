/** Programs of the Pooh language whose answers are known, run by the interpreter. */
module PoohPrograms {
  import opened PoohEval

  function Local(k: nat): Expr {
    Read((st: Store) => if k < |st.locals| then st.locals[k] else 0)
  }

  function Number(n: int): Expr {
    Read((st: Store) => n)
  }

  function SetLocal(k: nat, e: Expr): Stmt {
    Assign((st: Store, v: int) => if k < |st.locals| then st.(locals := st.locals[k := v]) else st, e)
  }

  function Count(st: Store): int {
    if "count" in st.shared then st.shared["count"] else 0
  }

  const PLUS := (a: int, b: int) => a + b
  const MINUS := (a: int, b: int) => a - b
  const TIMES := (a: int, b: int) => a * b
  const GREATER := (a: int, b: int) => if a > b then 1 else 0
  const ODD := (a: int, b: int) => if a % 2 != 0 then 1 else 0

  /** An endless loop that counts with local 1 up to local 0, and adds up the even numbers
      in local 2. */
  function SumRound(): seq<Stmt> {
    [SetLocal(1, Op(PLUS, Local(1), Number(1))),
     If(Arm(Op(GREATER, Local(1), Local(0)), Break, NoElse)),
     If(Arm(Op(ODD, Local(1), Number(0)), Next, NoElse)),
     SetLocal(2, Op(PLUS, Local(2), Local(1)))]
  }

  function SumBody(): Stmt {
    Block([Loop(Block(SumRound())), Return(Local(2))])
  }

  function FactorialBody(): Stmt {
    If(Arm(Op(GREATER, Local(0), Number(0)),
           Return(Op(TIMES, Local(0), Call("factorial", [Op(MINUS, Local(0), Number(1))]))),
           Else(Return(Number(1)))))
  }

  /** Counts its calls. */
  function TickBody(): Stmt {
    Block([Assign((st: Store, v: int) => st.(shared := st.shared["count" := v]), Op(PLUS, Read(Count), Number(1))),
           Return(Read(Count))])
  }

  function Library(name: string): Stmt {
    if name == "sum" then SumBody()
    else if name == "factorial" then FactorialBody()
    else if name == "tick" then TickBody()
    else ReturnNothing
  }

  // ----- single statements -----

  lemma LocalIs(p: Program, k: nat, st: Store, fuel: nat)
    requires k < |st.locals|
    ensures ValueOf(p, Local(k), st, fuel) == Value(st.locals[k], st)
  {
  }

  lemma NumberIs(p: Program, n: int, st: Store, fuel: nat)
    ensures ValueOf(p, Number(n), st, fuel) == Value(n, st)
  {
  }

  lemma OpIs(p: Program, op: (int, int) -> int, l: Expr, r: Expr, st: Store, fuel: nat, a: int, b: int)
    requires ValueOf(p, l, st, fuel) == Value(a, st) && ValueOf(p, r, st, fuel) == Value(b, st)
    ensures ValueOf(p, Op(op, l, r), st, fuel) == Value(op(a, b), st)
  {
  }

  lemma SetIs(p: Program, k: nat, e: Expr, st: Store, fuel: nat, v: int)
    requires k < |st.locals| && ValueOf(p, e, st, fuel) == Value(v, st)
    ensures Meaning(p, SetLocal(k, e), st, fuel) == Done(Normal, st.(locals := st.locals[k := v]))
  {
  }

  lemma IfIs(p: Program, condition: Expr, block: Stmt, st: Store, fuel: nat, v: int)
    requires ValueOf(p, condition, st, fuel) == Value(v, st)
    ensures Meaning(p, If(Arm(condition, block, NoElse)), st, fuel) ==
            if v != 0 then Meaning(p, block, st, fuel) else Done(Normal, st)
  {
    assert MeaningOfCond(p, NoElse, st, fuel) == Done(Normal, st);
    assert MeaningOfCond(p, Arm(condition, block, NoElse), st, fuel) ==
           if v != 0 then Meaning(p, block, st, fuel) else Done(Normal, st);
  }

  // ----- the sum of the even numbers -----

  /** What one round does: it breaks behind the last number, goes on from an odd one, and
      adds an even one. */
  lemma SumStep(p: Program, st: Store, n: int, i: int, s: int, fuel: nat)
    requires st.locals == [n, i, s]
    ensures var next := i + 1;
            Meaning(p, Block(SumRound()), st, fuel) ==
              if next > n then Done(Broke, st.(locals := [n, next, s]))
              else if next % 2 != 0 then Done(Continued, st.(locals := [n, next, s]))
              else Done(Normal, st.(locals := [n, next, s + next]))
  {
    var ss, one := SumRound(), st.(locals := [n, i + 1, s]);
    FourStatements(p, st, fuel, ss);
    SumCount(p, st, n, i, s, fuel);
    SumTests(p, one, n, i + 1, s, fuel);
    hide Meaning, ValueOf;
    if i + 1 <= n && (i + 1) % 2 == 0 {
      SumAdd(p, one, n, i + 1, s, fuel);
    }
  }

  lemma First(p: Program, ss: seq<Stmt>, st: Store, fuel: nat)
    requires ss != []
    ensures var r := Meaning(p, ss[0], st, fuel);
            MeaningOfList(p, ss, st, fuel) ==
              if !r.Done? || r.outcome != Normal then r
              else if |ss| == 1 then r
              else MeaningOfList(p, ss[1..], r.store, fuel)
  {
  }

  lemma FourStatements(p: Program, st: Store, fuel: nat, ss: seq<Stmt>)
    requires |ss| == 4
    ensures var a := Meaning(p, ss[0], st, fuel);
            if !a.Done? || a.outcome != Normal then Meaning(p, Block(ss), st, fuel) == a
            else
              var b := Meaning(p, ss[1], a.store, fuel);
              if !b.Done? || b.outcome != Normal then Meaning(p, Block(ss), st, fuel) == b
              else
                var c := Meaning(p, ss[2], b.store, fuel);
                if !c.Done? || c.outcome != Normal then Meaning(p, Block(ss), st, fuel) == c
                else Meaning(p, Block(ss), st, fuel) == Meaning(p, ss[3], c.store, fuel)
  {
    assert Meaning(p, Block(ss), st, fuel) == MeaningOfList(p, ss, st, fuel);
    hide MeaningOfList, Meaning;
    var a := Meaning(p, ss[0], st, fuel);
    First(p, ss, st, fuel);
    if a.Done? && a.outcome == Normal {
      var b := Meaning(p, ss[1], a.store, fuel);
      First(p, ss[1..], a.store, fuel);
      if b.Done? && b.outcome == Normal {
        assert ss[1..][1..] == ss[2..] && ss[2..][1..] == ss[3..];
        First(p, ss[2..], b.store, fuel);
        var c := Meaning(p, ss[2], b.store, fuel);
        if c.Done? && c.outcome == Normal {
          First(p, ss[3..], c.store, fuel);
        }
      }
    }
  }

  lemma SumCount(p: Program, st: Store, n: int, i: int, s: int, fuel: nat)
    requires st.locals == [n, i, s]
    ensures Meaning(p, SumRound()[0], st, fuel) == Done(Normal, st.(locals := [n, i + 1, s]))
  {
    hide Meaning, ValueOf, Local, Number, SetLocal;
    LocalIs(p, 1, st, fuel);
    NumberIs(p, 1, st, fuel);
    OpIs(p, PLUS, Local(1), Number(1), st, fuel, i, 1);
    SetIs(p, 1, Op(PLUS, Local(1), Number(1)), st, fuel, i + 1);
  }

  lemma SumTests(p: Program, st: Store, n: int, i: int, s: int, fuel: nat)
    requires st.locals == [n, i, s]
    ensures Meaning(p, SumRound()[1], st, fuel) == Done(if i > n then Broke else Normal, st)
    ensures Meaning(p, SumRound()[2], st, fuel) == Done(if i % 2 != 0 then Continued else Normal, st)
  {
    LocalIs(p, 0, st, fuel);
    LocalIs(p, 1, st, fuel);
    NumberIs(p, 0, st, fuel);
    OpIs(p, GREATER, Local(1), Local(0), st, fuel, i, n);
    OpIs(p, ODD, Local(1), Number(0), st, fuel, i, 0);
    IfIs(p, Op(GREATER, Local(1), Local(0)), Break, st, fuel, GREATER(i, n));
    IfIs(p, Op(ODD, Local(1), Number(0)), Next, st, fuel, ODD(i, 0));
  }

  lemma SumAdd(p: Program, st: Store, n: int, i: int, s: int, fuel: nat)
    requires st.locals == [n, i, s]
    ensures Meaning(p, SumRound()[3], st, fuel) == Done(Normal, st.(locals := [n, i, s + i]))
  {
    hide Meaning, ValueOf, Local, SetLocal;
    LocalIs(p, 1, st, fuel);
    LocalIs(p, 2, st, fuel);
    OpIs(p, PLUS, Local(2), Local(1), st, fuel, s, i);
    SetIs(p, 2, Op(PLUS, Local(2), Local(1)), st, fuel, s + i);
  }

  lemma LoopStep(p: Program, block: Stmt, st: Store, fuel: nat)
    ensures Meaning(p, Loop(block), st, fuel + 1) ==
            var r := Meaning(p, block, st, fuel);
            if r.OutOfFuel? then r
            else if r.outcome == Broke then Done(Normal, r.store)
            else if r.outcome == Returned then r
            else Meaning(p, Loop(block), r.store, fuel)
  {
  }

  /** The loop ends behind the last number with the sum of the even ones up to it. */
  lemma {:induction false} SumLoop(p: Program, st: Store, n: nat, i: nat, s: int, fuel: nat)
    requires st.locals == [n, i, s] && i <= n < fuel + i && s == i / 2 * (i / 2 + 1)
    ensures Meaning(p, Loop(Block(SumRound())), st, fuel) ==
            Done(Normal, st.(locals := [n, n + 1, n / 2 * (n / 2 + 1)]))
    decreases n - i
  {
    hide Meaning;
    SumStep(p, st, n, i, s, fuel - 1);
    LoopStep(p, Block(SumRound()), st, fuel - 1);
    if i < n {
      HalfStep(i);
      var s' := if (i + 1) % 2 != 0 then s else s + i + 1;
      SumLoop(p, st.(locals := [n, i + 1, s']), n, i + 1, s', fuel - 1);
    }
  }

  lemma HalfStep(i: nat)
    ensures (i + 1) / 2 * ((i + 1) / 2 + 1) == i / 2 * (i / 2 + 1) + if (i + 1) % 2 != 0 then 0 else i + 1
  {
    if i % 2 == 0 {
      assert (i + 1) / 2 == i / 2;
    } else {
      var h := i / 2;
      assert i == 2 * h + 1 && (i + 1) / 2 == h + 1;
      assert (h + 1) * (h + 2) == h * (h + 1) + 2 * (h + 1);
    }
  }

  lemma CallIs(p: Program, name: string, args: seq<Expr>, vs: seq<int>, st: Store, fuel: nat)
    requires ValuesOf(p, args, st, fuel + 1) == Values(vs, st)
    ensures ValueOf(p, Call(name, args), st, fuel + 1) ==
            var r := Meaning(p, p(name), Store(st.shared, 0, vs), fuel);
            if r.OutOfFuel? then NoValue else Value(r.store.result, st.(shared := r.store.shared))
  {
  }

  lemma ThreeNumbers(p: Program, a: int, b: int, c: int, st: Store, fuel: nat)
    ensures ValuesOf(p, [Number(a), Number(b), Number(c)], st, fuel) == Values([a, b, c], st)
  {
    var es := [Number(a), Number(b), Number(c)];
    assert es[1..] == [Number(b), Number(c)] && es[1..][1..] == [Number(c)] && es[1..][1..][1..] == [];
    assert ValuesOf(p, es[1..][1..][1..], st, fuel) == Values([], st);
    assert ValuesOf(p, es[1..][1..], st, fuel) == Values([c], st);
    assert ValuesOf(p, es[1..], st, fuel) == Values([b, c], st);
  }

  lemma ThenReturn(p: Program, s: Stmt, e: Expr, st: Store, mid: Store, v: int, fuel: nat)
    requires Meaning(p, s, st, fuel) == Done(Normal, mid) && ValueOf(p, e, mid, fuel) == Value(v, mid)
    ensures Meaning(p, Block([s, Return(e)]), st, fuel) == Done(Returned, mid.(result := v))
  {
    var ss := [s, Return(e)];
    assert ss[1..] == [Return(e)] && ss[1..][1..] == [];
    assert Meaning(p, Return(e), mid, fuel) == Done(Returned, mid.(result := v));
    assert MeaningOfList(p, ss[1..], mid, fuel) == Done(Returned, mid.(result := v));
  }

  /** A call adds up 2, 4, ... up to n, and leaves the frame of its caller alone. */
  lemma SumIs(n: nat, st: Store)
    ensures ValueOf(Library, Call("sum", [Number(n), Number(0), Number(0)]), st, n + 2) ==
            Value(n / 2 * (n / 2 + 1), st)
  {
    hide Meaning, ValueOf, ValuesOf, Local, Number, SumRound;
    ThreeNumbers(Library, n, 0, 0, st, n + 2);
    CallIs(Library, "sum", [Number(n), Number(0), Number(0)], [n, 0, 0], st, n + 1);
    var callee := Store(st.shared, 0, [n, 0, 0]);
    SumLoop(Library, callee, n, 0, 0, n + 1);
    var end := callee.(locals := [n, n + 1, n / 2 * (n / 2 + 1)]);
    LocalIs(Library, 2, end, n + 1);
    ThenReturn(Library, Loop(Block(SumRound())), Local(2), callee, end, n / 2 * (n / 2 + 1), n + 1);
    assert Library("sum") == SumBody();
  }

  // ----- recursion -----

  function Factorial(n: nat): nat {
    if n == 0 then 1 else n * Factorial(n - 1)
  }

  lemma OneArg(p: Program, e: Expr, v: int, st: Store, fuel: nat)
    requires ValueOf(p, e, st, fuel) == Value(v, st)
    ensures ValuesOf(p, [e], st, fuel) == Values([v], st)
  {
    assert [e][1..] == [] && ValuesOf(p, [], st, fuel) == Values([], st);
  }

  lemma TwoArms(p: Program, c: Expr, a: Stmt, b: Stmt, st: Store, v: int, fuel: nat)
    requires ValueOf(p, c, st, fuel) == Value(v, st)
    ensures Meaning(p, If(Arm(c, a, Else(b))), st, fuel) == Meaning(p, if v != 0 then a else b, st, fuel)
  {
    assert MeaningOfCond(p, Else(b), st, fuel) == Meaning(p, b, st, fuel);
    assert MeaningOfCond(p, Arm(c, a, Else(b)), st, fuel) == Meaning(p, if v != 0 then a else b, st, fuel);
  }

  lemma ReturnIs(p: Program, e: Expr, st: Store, v: int, fuel: nat)
    requires ValueOf(p, e, st, fuel) == Value(v, st)
    ensures Meaning(p, Return(e), st, fuel) == Done(Returned, st.(result := v))
  {
  }

  /** A function that calls itself: each call has its own argument, and the caller its
      own again when it goes on. */
  lemma {:induction false} FactorialIs(arg: Expr, n: nat, st: Store, fuel: nat)
    requires ValueOf(Library, arg, st, fuel + 1) == Value(n, st) && n <= fuel
    ensures ValueOf(Library, Call("factorial", [arg]), st, fuel + 1) == Value(Factorial(n), st)
    decreases n
  {
    hide Meaning, ValueOf, ValuesOf, Local, Number;
    OneArg(Library, arg, n, st, fuel + 1);
    CallIs(Library, "factorial", [arg], [n], st, fuel);
    var callee := Store(st.shared, 0, [n]);
    LocalIs(Library, 0, callee, fuel);
    NumberIs(Library, 0, callee, fuel);
    NumberIs(Library, 1, callee, fuel);
    OpIs(Library, GREATER, Local(0), Number(0), callee, fuel, n, 0);
    var less := Op(MINUS, Local(0), Number(1));
    var inner := Call("factorial", [less]);
    TwoArms(Library, Op(GREATER, Local(0), Number(0)), Return(Op(TIMES, Local(0), inner)), Return(Number(1)), callee,
            GREATER(n, 0), fuel);
    if n > 0 {
      OpIs(Library, MINUS, Local(0), Number(1), callee, fuel, n, 1);
      FactorialIs(less, n - 1, callee, fuel - 1);
      OpIs(Library, TIMES, Local(0), inner, callee, fuel, n, Factorial(n - 1));
      ReturnIs(Library, Op(TIMES, Local(0), inner), callee, n * Factorial(n - 1), fuel);
    } else {
      ReturnIs(Library, Number(1), callee, 1, fuel);
    }
    assert Library("factorial") == FactorialBody();
  }

  // ----- order of evaluation -----

  function Counted(st: Store, n: int): Store {
    st.(shared := st.shared["count" := n])
  }

  /** The counter answers with the number of its calls. */
  lemma TickIs(st: Store, fuel: nat)
    ensures ValueOf(Library, Call("tick", []), st, fuel + 1) == Value(Count(st) + 1, Counted(st, Count(st) + 1))
  {
    hide Meaning, ValueOf;
    CallIs(Library, "tick", [], [], st, fuel) by {
      NoArgs(st, fuel + 1);
    }
    var callee := Store(st.shared, 0, []);
    var end := Counted(callee, Count(st) + 1);
    ReadCount(callee, fuel);
    ReadCount(end, fuel);
    NumberIs(Library, 1, callee, fuel);
    OpIs(Library, PLUS, Read(Count), Number(1), callee, fuel, Count(st), 1);
    TickStep(callee, fuel);
    ThenReturn(Library, TickBody().statements[0], Read(Count), callee, end, Count(st) + 1, fuel);
    assert Library("tick") == TickBody();
  }

  lemma NoArgs(st: Store, fuel: nat)
    ensures ValuesOf(Library, [], st, fuel) == Values([], st)
  {
  }

  lemma ReadCount(st: Store, fuel: nat)
    ensures ValueOf(Library, Read(Count), st, fuel) == Value(Count(st), st)
  {
  }

  lemma TickStep(st: Store, fuel: nat)
    requires ValueOf(Library, Op(PLUS, Read(Count), Number(1)), st, fuel) == Value(Count(st) + 1, st)
    ensures Meaning(Library, TickBody().statements[0], st, fuel) == Done(Normal, Counted(st, Count(st) + 1))
  {
  }

  /** Arguments are evaluated from left to right: the calls of the counter are numbered in
      their order. */
  lemma {:induction false} ArgsInOrder(args: seq<Expr>, st: Store, fuel: nat)
    requires forall i :: 0 <= i < |args| ==> args[i] == Call("tick", [])
    ensures var r := ValuesOf(Library, args, st, fuel + 1);
            && r.Values? && |r.vs| == |args| && (forall i :: 0 <= i < |args| ==> r.vs[i] == Count(st) + 1 + i)
            && Count(r.store) == Count(st) + |args|
    decreases |args|
  {
    hide ValueOf;
    if args != [] {
      TickIs(st, fuel);
      ArgsInOrder(args[1..], Counted(st, Count(st) + 1), fuel);
    }
  }

  /** So are operands. */
  lemma OperandsInOrder(op: (int, int) -> int, st: Store, fuel: nat)
    ensures ValueOf(Library, Op(op, Call("tick", []), Call("tick", [])), st, fuel + 1) ==
            Value(op(Count(st) + 1, Count(st) + 2), Counted(st, Count(st) + 2))
  {
    var one := Counted(st, Count(st) + 1);
    TickIs(st, fuel);
    TickIs(one, fuel);
    assert Counted(one, Count(st) + 2) == Counted(st, Count(st) + 2);
  }

  /** The interpreter on these programs. */
  method RunPrograms(n: nat, st: Store) returns (ok: bool, sum: int, factorial: int, end: Store)
    ensures ok && sum == n / 2 * (n / 2 + 1) && factorial == Factorial(n) && end == st
  {
    hide ValueOf, SumBody, FactorialBody, TickBody;
    var evaluator := new Evaluator(Library, st);
    SumIs(n, st);
    ok, sum := evaluator.DoExpr(Call("sum", [Number(n), Number(0), Number(0)]), n + 2);
    NumberIs(Library, n, st, n + 1);
    FactorialIs(Number(n), n, st, n);
    ok, factorial := evaluator.DoExpr(Call("factorial", [Number(n)]), n + 1);
    end := evaluator.store;
  }
}
