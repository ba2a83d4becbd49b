/** Statements of the Pooh language (pooh-lan/eval.c).  The interpreter walks the tree
    and keeps one flag, loop_exit, to leave loops and functions; the meaning of the
    language is given beside it by outcomes, with no flag. */
module PoohEval {

  /** What calls share, and the frame of the running function: the slot of the return
      value, then arguments and locals. */
  datatype Store = Store(shared: map<string, int>, result: int, locals: seq<int>)

  /** A value read from the store, an operator, or the call of a function. */
  datatype Expr =
    | Read(value: Store -> int)
    | Op(op: (int, int) -> int, left: Expr, right: Expr)
    | Call(name: string, args: seq<Expr>)

  datatype Stmt =
    | Eval(e: Expr)
    | Assign(update: (Store, int) -> Store, e: Expr)
    | Block(statements: seq<Stmt>)
    | If(cond: Cond)
    | While(condition: Expr, block: Stmt)
    | Loop(block: Stmt)
    | Break
    | Next
    | Return(e: Expr)
    | ReturnNothing

  /** if and else-if arms, at the end an else or nothing. */
  datatype Cond = NoElse | Else(block: Stmt) | Arm(condition: Expr, block: Stmt, elsecond: Cond)

  /** The body of every function. */
  type Program = string -> Stmt

  // ----- structured meaning -----

  datatype Outcome = Normal | Broke | Continued | Returned

  /** OutOfFuel when the given depth of loop rounds and calls does not suffice. */
  datatype Result = OutOfFuel | Done(outcome: Outcome, store: Store)

  datatype Value = NoValue | Value(v: int, store: Store)

  datatype Values = NoValues | Values(vs: seq<int>, store: Store)

  function Meaning(p: Program, s: Stmt, st: Store, fuel: nat): Result
    decreases fuel, s, 1
  {
    match s
    case Eval(e) =>
      var v := ValueOf(p, e, st, fuel);
      if v.NoValue? then OutOfFuel else Done(Normal, v.store)
    case Assign(update, e) =>
      var v := ValueOf(p, e, st, fuel);
      if v.NoValue? then OutOfFuel else Done(Normal, update(v.store, v.v))
    case Block(statements) => MeaningOfList(p, statements, st, fuel)
    case If(cond) => MeaningOfCond(p, cond, st, fuel)
    case While(_, _) => MeaningOfLoop(p, s, st, fuel)
    case Loop(_) => MeaningOfLoop(p, s, st, fuel)
    case Break => Done(Broke, st)
    case Next => Done(Continued, st)
    case Return(e) =>
      var v := ValueOf(p, e, st, fuel);
      if v.NoValue? then OutOfFuel else Done(Returned, v.store.(result := v.v))
    case ReturnNothing => Done(Normal, st)
  }

  function MeaningOfList(p: Program, ss: seq<Stmt>, st: Store, fuel: nat): Result
    decreases fuel, ss
  {
    if ss == [] then
      Done(Normal, st)
    else
      var r := Meaning(p, ss[0], st, fuel);
      if r.Done? && r.outcome == Normal then MeaningOfList(p, ss[1..], r.store, fuel) else r
  }

  function MeaningOfCond(p: Program, c: Cond, st: Store, fuel: nat): Result
    decreases fuel, c
  {
    match c
    case NoElse => Done(Normal, st)
    case Else(block) => Meaning(p, block, st, fuel)
    case Arm(condition, block, elsecond) =>
      var v := ValueOf(p, condition, st, fuel);
      if v.NoValue? then OutOfFuel
      else if v.v != 0 then Meaning(p, block, v.store, fuel)
      else MeaningOfCond(p, elsecond, v.store, fuel)
  }

  /** One round, and then the loop again. */
  function MeaningOfLoop(p: Program, s: Stmt, st: Store, fuel: nat): Result
    requires s.While? || s.Loop?
    decreases fuel, s, 0
  {
    if fuel == 0 then
      OutOfFuel
    else
      var v := if s.While? then ValueOf(p, s.condition, st, fuel - 1) else Value(1, st);
      if v.NoValue? then OutOfFuel
      else if v.v == 0 then Done(Normal, v.store)
      else
        var r := Meaning(p, s.block, v.store, fuel - 1);
        if r.OutOfFuel? then r
        else match r.outcome
          case Broke => Done(Normal, r.store)
          case Returned => r
          case _ => MeaningOfLoop(p, s, r.store, fuel - 1)
  }

  /** A call yields what its body left in the return slot, however the body ended; the
      frame of the caller is as before. */
  function ValueOf(p: Program, e: Expr, st: Store, fuel: nat): Value
    decreases fuel, e
  {
    match e
    case Read(value) => Value(value(st), st)
    case Op(op, left, right) =>
      var l := ValueOf(p, left, st, fuel);
      if l.NoValue? then NoValue
      else
        var r := ValueOf(p, right, l.store, fuel);
        if r.NoValue? then NoValue else Value(op(l.v, r.v), r.store)
    case Call(name, args) =>
      var vs := ValuesOf(p, args, st, fuel);
      if vs.NoValues? || fuel == 0 then NoValue
      else
        var r := Meaning(p, p(name), Store(vs.store.shared, 0, vs.vs), fuel - 1);
        if r.OutOfFuel? then NoValue
        else Value(r.store.result, vs.store.(shared := r.store.shared))
  }

  function ValuesOf(p: Program, es: seq<Expr>, st: Store, fuel: nat): (r: Values)
    decreases fuel, es
  {
    if es == [] then
      Values([], st)
    else
      var v := ValueOf(p, es[0], st, fuel);
      if v.NoValue? then NoValues
      else
        var vs := ValuesOf(p, es[1..], v.store, fuel);
        if vs.NoValues? then NoValues else Values([v.v] + vs.vs, vs.store)
  }

  /** A loop never ends with break or next: they belong to it. */
  lemma {:induction false} LoopKeepsBreaks(p: Program, s: Stmt, st: Store, fuel: nat)
    requires s.While? || s.Loop?
    ensures var r := Meaning(p, s, st, fuel); r.Done? ==> r.outcome == Normal || r.outcome == Returned
    decreases fuel
  {
    if fuel > 0 {
      var v := if s.While? then ValueOf(p, s.condition, st, fuel - 1) else Value(1, st);
      if v.Value? && v.v != 0 {
        var r := Meaning(p, s.block, v.store, fuel - 1);
        if r.Done? {
          LoopKeepsBreaks(p, s, r.store, fuel - 1);
        }
      }
    }
  }

  /** The flag is set for a return with a value only, so a return without one does not
      leave the function: it can be struck out of any list. */
  lemma {:induction false} BareReturnDoesNothing(p: Program, before: seq<Stmt>, after: seq<Stmt>, st: Store, fuel: nat)
    ensures MeaningOfList(p, before + [ReturnNothing] + after, st, fuel) == MeaningOfList(p, before + after, st, fuel)
    decreases before
  {
    if before == [] {
      assert [ReturnNothing] + after == before + [ReturnNothing] + after;
      assert ([ReturnNothing] + after)[1..] == after == before + after;
    } else {
      var r := Meaning(p, before[0], st, fuel);
      assert (before + [ReturnNothing] + after)[1..] == before[1..] + [ReturnNothing] + after;
      assert (before + after)[1..] == before[1..] + after;
      if r.Done? {
        BareReturnDoesNothing(p, before[1..], after, r.store, fuel);
      }
    }
  }

  /** A return with a value does: what follows it can be struck out. */
  lemma {:induction false} ReturnLeaves(p: Program, before: seq<Stmt>, e: Expr, after: seq<Stmt>, st: Store, fuel: nat)
    ensures MeaningOfList(p, before + [Return(e)] + after, st, fuel) == MeaningOfList(p, before + [Return(e)], st, fuel)
    decreases before
  {
    if before == [] {
      assert before + [Return(e)] == [Return(e)] && (before + [Return(e)] + after)[0] == Return(e);
    } else {
      var r := Meaning(p, before[0], st, fuel);
      assert (before + [Return(e)] + after)[1..] == before[1..] + [Return(e)] + after;
      assert (before + [Return(e)])[1..] == before[1..] + [Return(e)];
      if r.Done? {
        ReturnLeaves(p, before[1..], e, after, r.store, fuel);
      }
    }
  }

  /** A function that starts with a bare return, and still answers 7. */
  lemma BareReturnGoesOn(p: Program, st: Store)
    requires p("f") == Block([ReturnNothing, Return(Read(_ => 7))])
    ensures ValueOf(p, Call("f", []), st, 1) == Value(7, st)
  {
    var callee := Store(st.shared, 0, []);
    var body := [ReturnNothing, Return(Read(_ => 7))];
    assert body == [] + [ReturnNothing] + [Return(Read(_ => 7))] && body[1..] == [] + [Return(Read(_ => 7))];
    BareReturnDoesNothing(p, [], body[1..], callee, 0);
  }

  // ----- more fuel does not change the meaning -----

  lemma {:induction false} MoreFuel(p: Program, s: Stmt, st: Store, fuel: nat)
    requires Meaning(p, s, st, fuel).Done?
    ensures Meaning(p, s, st, fuel + 1) == Meaning(p, s, st, fuel)
    decreases fuel, s, 1
  {
    match s
    case Eval(e) => MoreFuelExpr(p, e, st, fuel);
    case Assign(_, e) => MoreFuelExpr(p, e, st, fuel);
    case Block(statements) => MoreFuelList(p, statements, st, fuel);
    case If(cond) => MoreFuelCond(p, cond, st, fuel);
    case While(_, _) => MoreFuelLoop(p, s, st, fuel);
    case Loop(_) => MoreFuelLoop(p, s, st, fuel);
    case Break =>
    case Next =>
    case Return(e) => MoreFuelExpr(p, e, st, fuel);
    case ReturnNothing =>
  }

  lemma {:induction false} MoreFuelList(p: Program, ss: seq<Stmt>, st: Store, fuel: nat)
    requires MeaningOfList(p, ss, st, fuel).Done?
    ensures MeaningOfList(p, ss, st, fuel + 1) == MeaningOfList(p, ss, st, fuel)
    decreases fuel, ss
  {
    if ss != [] {
      MoreFuel(p, ss[0], st, fuel);
      var r := Meaning(p, ss[0], st, fuel);
      if r.outcome == Normal {
        MoreFuelList(p, ss[1..], r.store, fuel);
      }
    }
  }

  lemma {:induction false} MoreFuelCond(p: Program, c: Cond, st: Store, fuel: nat)
    requires MeaningOfCond(p, c, st, fuel).Done?
    ensures MeaningOfCond(p, c, st, fuel + 1) == MeaningOfCond(p, c, st, fuel)
    decreases fuel, c
  {
    match c
    case NoElse =>
    case Else(block) => MoreFuel(p, block, st, fuel);
    case Arm(condition, block, elsecond) =>
      MoreFuelExpr(p, condition, st, fuel);
      var v := ValueOf(p, condition, st, fuel);
      if v.v != 0 {
        MoreFuel(p, block, v.store, fuel);
      } else {
        MoreFuelCond(p, elsecond, v.store, fuel);
      }
  }

  lemma {:induction false} MoreFuelLoop(p: Program, s: Stmt, st: Store, fuel: nat)
    requires (s.While? || s.Loop?) && MeaningOfLoop(p, s, st, fuel).Done?
    ensures MeaningOfLoop(p, s, st, fuel + 1) == MeaningOfLoop(p, s, st, fuel)
    decreases fuel, s, 0
  {
    var v := if s.While? then ValueOf(p, s.condition, st, fuel - 1) else Value(1, st);
    if s.While? {
      MoreFuelExpr(p, s.condition, st, fuel - 1);
    }
    if v.v != 0 {
      MoreFuel(p, s.block, v.store, fuel - 1);
      var r := Meaning(p, s.block, v.store, fuel - 1);
      if r.outcome == Normal || r.outcome == Continued {
        MoreFuelLoop(p, s, r.store, fuel - 1);
      }
    }
  }

  lemma {:induction false} MoreFuelExpr(p: Program, e: Expr, st: Store, fuel: nat)
    requires ValueOf(p, e, st, fuel).Value?
    ensures ValueOf(p, e, st, fuel + 1) == ValueOf(p, e, st, fuel)
    decreases fuel, e
  {
    match e
    case Read(_) =>
    case Op(op, left, right) =>
      MoreFuelExpr(p, left, st, fuel);
      MoreFuelExpr(p, right, ValueOf(p, left, st, fuel).store, fuel);
    case Call(name, args) =>
      MoreFuelExprs(p, args, st, fuel);
      var vs := ValuesOf(p, args, st, fuel);
      MoreFuel(p, p(name), Store(vs.store.shared, 0, vs.vs), fuel - 1);
  }

  lemma {:induction false} MoreFuelExprs(p: Program, es: seq<Expr>, st: Store, fuel: nat)
    requires ValuesOf(p, es, st, fuel).Values?
    ensures ValuesOf(p, es, st, fuel + 1) == ValuesOf(p, es, st, fuel)
    decreases fuel, es
  {
    if es != [] {
      MoreFuelExpr(p, es[0], st, fuel);
      MoreFuelExprs(p, es[1..], ValueOf(p, es[0], st, fuel).store, fuel);
    }
  }

  /** So a statement has at most one meaning, whatever the fuel. */
  lemma {:induction false} OneMeaning(p: Program, s: Stmt, st: Store, f: nat, g: nat)
    requires Meaning(p, s, st, f).Done? && f <= g
    ensures Meaning(p, s, st, g) == Meaning(p, s, st, f)
    decreases g - f
  {
    if f < g {
      MoreFuel(p, s, st, f);
      OneMeaning(p, s, st, f + 1, g);
    }
  }

  // ----- the interpreter -----

  datatype LoopExit = LOOP_NO_BREAK | LOOP_BREAK | LOOP_CONTINUE | EXIT_FUNCTION

  /** The flag that stands for an outcome. */
  function Flag(o: Outcome): LoopExit {
    match o
    case Normal => LOOP_NO_BREAK
    case Broke => LOOP_BREAK
    case Continued => LOOP_CONTINUE
    case Returned => EXIT_FUNCTION
  }

  class Evaluator {
    const program: Program
    var loopExit: LoopExit
    var store: Store

    constructor (program: Program, store: Store)
      ensures this.program == program && this.store == store && loopExit == LOOP_NO_BREAK
    {
      this.program, this.store, loopExit := program, store, LOOP_NO_BREAK;
    }

    /** The flag and the store are as the meaning of a statement says. */
    ghost predicate Agrees(ok: bool, r: Result)
      reads this
    {
      ok == r.Done? && (ok ==> store == r.store && loopExit == Flag(r.outcome))
    }

    /** EVAL_do; not ok when the fuel ran out. */
    method Do(s: Stmt, fuel: nat) returns (ok: bool)
      requires loopExit == LOOP_NO_BREAK
      modifies this
      ensures Agrees(ok, Meaning(program, s, old(store), fuel))
      decreases fuel, s, 1
    {
      ok := true;
      match s {
        case Eval(e) =>
          var v;
          ok, v := DoExpr(e, fuel);
        case Assign(update, e) =>
          var v;
          ok, v := DoExpr(e, fuel);
          if ok {
            store := update(store, v);
          }
        case Block(statements) => ok := DoList(statements, fuel);
        case If(cond) => ok := DoIf(cond, fuel);
        case While(_, _) => ok := DoWhile(s, fuel);
        case Loop(_) => ok := DoWhile(s, fuel);
        case Break => loopExit := LOOP_BREAK;
        case Next => loopExit := LOOP_CONTINUE;
        case Return(e) =>
          var v;
          ok, v := DoExpr(e, fuel);
          if ok {
            store := store.(result := v);
            loopExit := EXIT_FUNCTION;
          }
        case ReturnNothing =>
      }
    }

    /** The case of a list: the statements until one sets the flag. */
    method DoList(ss: seq<Stmt>, fuel: nat) returns (ok: bool)
      requires loopExit == LOOP_NO_BREAK
      modifies this
      ensures Agrees(ok, MeaningOfList(program, ss, old(store), fuel))
      decreases fuel, ss
    {
      var i := 0;
      while i < |ss|
        invariant 0 <= i <= |ss| && loopExit == LOOP_NO_BREAK
        invariant MeaningOfList(program, ss, old(store), fuel) == MeaningOfList(program, ss[i..], store, fuel)
      {
        ok := Do(ss[i], fuel);
        assert ss[i..][1..] == ss[i + 1..];
        if !ok || loopExit != LOOP_NO_BREAK {
          return;
        }
        i := i + 1;
      }
      return true;
    }

    /** The case of if: down the arms to the first one to be taken. */
    method DoIf(cond: Cond, fuel: nat) returns (ok: bool)
      requires loopExit == LOOP_NO_BREAK
      modifies this
      ensures Agrees(ok, MeaningOfCond(program, cond, old(store), fuel))
      decreases fuel, cond
    {
      var c := cond;
      while c != NoElse
        invariant (c == cond || c < cond) && loopExit == LOOP_NO_BREAK
        invariant MeaningOfCond(program, cond, old(store), fuel) == MeaningOfCond(program, c, store, fuel)
        decreases c
      {
        if c.Arm? {
          var v;
          ok, v := DoExpr(c.condition, fuel);
          if !ok {
            return;
          }
          if v == 0 {
            c := c.elsecond;
            continue;
          }
        }
        ok := Do(c.block, fuel);
        return;
      }
      return true;
    }

    /** The case of a loop: the flag is cleared at its start and after each break and
        next of its block, and left to the function when it says to exit. */
    method DoWhile(s: Stmt, fuel: nat) returns (ok: bool)
      requires s.While? || s.Loop?
      modifies this
      ensures Agrees(ok, MeaningOfLoop(program, s, old(store), fuel))
      decreases fuel, s, 0
    {
      loopExit := LOOP_NO_BREAK;
      var doLoop := true;
      var n: nat := fuel;
      while true
        invariant n <= fuel && loopExit == LOOP_NO_BREAK && doLoop
        invariant MeaningOfLoop(program, s, old(store), fuel) == MeaningOfLoop(program, s, store, n)
        decreases n
      {
        if n == 0 {
          return false;
        }
        n := n - 1;
        if s.While? {
          var v;
          ok, v := DoExpr(s.condition, n);
          if !ok {
            return false;
          }
          if v == 0 {
            break;
          }
        }
        ok := Do(s.block, n);
        if !ok {
          return false;
        }
        match loopExit {
          case LOOP_BREAK =>
            loopExit := LOOP_NO_BREAK;
            doLoop := false;
          case LOOP_CONTINUE =>
            loopExit := LOOP_NO_BREAK;
          case EXIT_FUNCTION =>
            return true;
          case LOOP_NO_BREAK =>
        }
        if !doLoop {
          break;
        }
      }
      return true;
    }

    /** EVAL_do_expr; at the end of a function the flag is cleared. */
    method DoExpr(e: Expr, fuel: nat) returns (ok: bool, v: int)
      requires loopExit == LOOP_NO_BREAK
      modifies this
      ensures var r := ValueOf(program, e, old(store), fuel);
              ok == r.Value? && (ok ==> v == r.v && store == r.store && loopExit == LOOP_NO_BREAK)
      decreases fuel, e
    {
      match e {
        case Read(value) => return true, value(store);
        case Op(op, left, right) =>
          var l, r;
          ok, l := DoExpr(left, fuel);
          if !ok {
            return false, 0;
          }
          ok, r := DoExpr(right, fuel);
          return ok, op(l, r);
        case Call(name, args) =>
          var vs;
          ok, vs := DoArgs(args, fuel);
          if !ok || fuel == 0 {
            return false, 0;
          }
          var caller := store;
          store := Store(store.shared, 0, vs);
          ok := Do(program(name), fuel - 1);
          loopExit := LOOP_NO_BREAK;
          v := store.result;
          store := caller.(shared := store.shared);
      }
    }

    /** The arguments, from left to right. */
    method DoArgs(es: seq<Expr>, fuel: nat) returns (ok: bool, vs: seq<int>)
      requires loopExit == LOOP_NO_BREAK
      modifies this
      ensures var r := ValuesOf(program, es, old(store), fuel);
              ok == r.Values? && (ok ==> vs == r.vs && store == r.store && loopExit == LOOP_NO_BREAK)
      decreases fuel, es
    {
      vs := [];
      var i := 0;
      while i < |es|
        invariant 0 <= i <= |es| && loopExit == LOOP_NO_BREAK
        invariant var r := ValuesOf(program, es, old(store), fuel);
                  var rest := ValuesOf(program, es[i..], store, fuel);
                  r.Values? == rest.Values? && (r.Values? ==> r == Values(vs + rest.vs, rest.store))
      {
        assert es[i..][1..] == es[i + 1..];
        var v;
        ok, v := DoExpr(es[i], fuel);
        if !ok {
          return false, [];
        }
        vs := vs + [v];
        i := i + 1;
      }
      assert es[i..] == [];
      return true, vs;
    }
  }

  /** The interpreter on a list with a return in it: it goes on behind the return if and
      only if that is a bare one. */
  method InterpretReturn(p: Program, before: seq<Stmt>, r: Stmt, after: seq<Stmt>, st: Store, fuel: nat)
    returns (ok: bool, flag: LoopExit, end: Store)
    requires r == ReturnNothing || r.Return?
    ensures var m := MeaningOfList(p, before + if r == ReturnNothing then after else [r], st, fuel);
            ok == m.Done? && (ok ==> end == m.store && flag == Flag(m.outcome))
  {
    var evaluator := new Evaluator(p, st);
    ok := evaluator.DoList(before + [r] + after, fuel);
    flag, end := evaluator.loopExit, evaluator.store;
    if r == ReturnNothing {
      BareReturnDoesNothing(p, before, after, st, fuel);
    } else {
      ReturnLeaves(p, before, r.e, after, st, fuel);
    }
  }

  /** The same statement interpreted twice with fuel that suffices ends the same way,
      and as its meaning with any fuel that suffices. */
  method Interpret(p: Program, s: Stmt, st: Store, fuel: nat) returns (ok: bool, flag: LoopExit, end: Store)
    ensures ok ==> forall g: nat :: var r := Meaning(p, s, st, g); r.Done? ==> end == r.store && flag == Flag(r.outcome)
    ensures !ok ==> forall g: nat :: g <= fuel ==> Meaning(p, s, st, g) == OutOfFuel
  {
    var evaluator := new Evaluator(p, st);
    ok := evaluator.Do(s, fuel);
    flag, end := evaluator.loopExit, evaluator.store;
    forall g: nat | Meaning(p, s, st, g).Done?
      ensures ok || g > fuel
      ensures ok ==> Meaning(p, s, st, g) == Meaning(p, s, st, fuel)
    {
      if g <= fuel {
        OneMeaning(p, s, st, g, fuel);
      } else if ok {
        OneMeaning(p, s, st, fuel, g);
      }
    }
  }
}
