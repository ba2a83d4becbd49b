/** What the statements of the Pooh language do, said without the meaning functions: loops
    by their rounds, lists and arms by their parts, and programs by what they compute. */
module PoohLaws {
  import opened PoohEval

  /** The statement ends so, with every depth that suffices. */
  ghost predicate Ends(p: Program, s: Stmt, st: Store, o: Outcome, end: Store) {
    exists f: nat :: Meaning(p, s, st, f) == Done(o, end)
  }

  ghost predicate Yields(p: Program, e: Expr, st: Store, v: int, end: Store) {
    exists f: nat :: ValueOf(p, e, st, f) == Value(v, end)
  }

  lemma {:induction false} OneValue(p: Program, e: Expr, st: Store, f: nat, g: nat)
    requires ValueOf(p, e, st, f).Value? && f <= g
    ensures ValueOf(p, e, st, g) == ValueOf(p, e, st, f)
    decreases g - f
  {
    if f < g {
      MoreFuelExpr(p, e, st, f);
      OneValue(p, e, st, f + 1, g);
    }
  }

  // ----- rounds of a loop -----

  /** One round: the condition of a while holds, and then the block ends with outcome o. */
  ghost predicate Round(p: Program, s: Stmt, st: Store, o: Outcome, end: Store)
    requires s.While? || s.Loop?
  {
    if s.While? then
      exists v: int, mid: Store :: v != 0 && Yields(p, s.condition, st, v, mid) && Ends(p, s.block, mid, o, end)
    else Ends(p, s.block, st, o, end)
  }

  /** A round after which the loop goes on. */
  ghost predicate GoesOn(p: Program, s: Stmt, st: Store, end: Store)
    requires s.While? || s.Loop?
  {
    Round(p, s, st, Normal, end) || Round(p, s, st, Continued, end)
  }

  /** The stores between rounds. */
  ghost predicate Rounds(p: Program, s: Stmt, sts: seq<Store>)
    requires s.While? || s.Loop?
  {
    sts != [] && forall i, j :: 0 <= i < j < |sts| && j == i + 1 ==> GoesOn(p, s, sts[i], sts[j])
  }

  /** The end of a loop: the condition of a while is zero, or the last round breaks, or it
      returns. */
  ghost predicate Stops(p: Program, s: Stmt, st: Store, o: Outcome, end: Store)
    requires s.While? || s.Loop?
  {
    || (s.While? && o == Normal && Yields(p, s.condition, st, 0, end))
    || (o == Normal && Round(p, s, st, Broke, end))
    || (o == Returned && Round(p, s, st, Returned, end))
  }

  /** What the loop does with some fuel is one of these. */
  lemma OneRound(p: Program, s: Stmt, st: Store, f: nat)
    requires (s.While? || s.Loop?) && f > 0 && Meaning(p, s, st, f).Done?
    ensures var r := Meaning(p, s, st, f);
            || Stops(p, s, st, r.outcome, r.store)
            || exists mid :: GoesOn(p, s, st, mid) && Meaning(p, s, mid, f - 1) == r
  {
    var v := if s.While? then ValueOf(p, s.condition, st, f - 1) else Value(1, st);
    assert s.While? ==> Yields(p, s.condition, st, v.v, v.store);
    if v.v != 0 {
      var r := Meaning(p, s.block, v.store, f - 1);
      assert Ends(p, s.block, v.store, r.outcome, r.store);
      assert Round(p, s, st, r.outcome, r.store);
      if r.outcome == Normal || r.outcome == Continued {
        assert GoesOn(p, s, st, r.store) && Meaning(p, s, r.store, f - 1) == Meaning(p, s, st, f);
      }
    }
  }

  lemma {:induction false} Unroll(p: Program, s: Stmt, st: Store, f: nat) returns (sts: seq<Store>)
    requires (s.While? || s.Loop?) && Meaning(p, s, st, f).Done?
    ensures sts != [] && Rounds(p, s, sts) && sts[0] == st
    ensures var r := Meaning(p, s, st, f); Stops(p, s, sts[|sts| - 1], r.outcome, r.store)
    decreases f
  {
    hide Stops, GoesOn;
    var r := Meaning(p, s, st, f);
    OneRound(p, s, st, f);
    if Stops(p, s, st, r.outcome, r.store) {
      sts := [st];
    } else {
      var mid :| GoesOn(p, s, st, mid) && Meaning(p, s, mid, f - 1) == r;
      var rest := Unroll(p, s, mid, f - 1);
      sts := [st] + rest;
    }
  }

  /** The same round with some fuel. */
  ghost predicate RoundWith(p: Program, s: Stmt, st: Store, o: Outcome, end: Store, g: nat)
    requires s.While? || s.Loop?
  {
    var v := if s.While? then ValueOf(p, s.condition, st, g) else Value(1, st);
    v.Value? && v.v != 0 && Meaning(p, s.block, v.store, g) == Done(o, end)
  }

  /** Enough fuel for a condition and the block behind it. */
  lemma RoundFuel(p: Program, s: Stmt, st: Store, o: Outcome, end: Store) returns (f: nat)
    requires (s.While? || s.Loop?) && Round(p, s, st, o, end)
    ensures forall g: nat :: g >= f ==> RoundWith(p, s, st, o, end, g)
  {
    if s.While? {
      var v, mid :| v != 0 && Yields(p, s.condition, st, v, mid) && Ends(p, s.block, mid, o, end);
      var a: nat :| ValueOf(p, s.condition, st, a) == Value(v, mid);
      var b: nat :| Meaning(p, s.block, mid, b) == Done(o, end);
      f := a + b;
      forall g: nat | g >= f
        ensures RoundWith(p, s, st, o, end, g)
      {
        OneValue(p, s.condition, st, a, g);
        OneMeaning(p, s.block, mid, b, g);
      }
    } else {
      var b: nat :| Meaning(p, s.block, st, b) == Done(o, end);
      f := b;
      forall g: nat | g >= f ensures RoundWith(p, s, st, o, end, g) {
        OneMeaning(p, s.block, st, b, g);
      }
    }
  }

  lemma RoundThen(p: Program, s: Stmt, st: Store, mid: Store, o: Outcome, end: Store)
    requires (s.While? || s.Loop?) && GoesOn(p, s, st, mid) && Ends(p, s, mid, o, end)
    ensures Ends(p, s, st, o, end)
  {
    hide Round;
    var how := if Round(p, s, st, Normal, mid) then Normal else Continued;
    var a := RoundFuel(p, s, st, how, mid);
    var b: nat :| Meaning(p, s, mid, b) == Done(o, end);
    OneMeaning(p, s, mid, b, a + b);
    assert RoundWith(p, s, st, how, mid, a + b);
    assert Meaning(p, s, st, a + b + 1) == Done(o, end);
  }

  lemma StopEnds(p: Program, s: Stmt, st: Store, o: Outcome, end: Store)
    requires (s.While? || s.Loop?) && Stops(p, s, st, o, end)
    ensures Ends(p, s, st, o, end)
  {
    hide Round;
    if s.While? && o == Normal && Yields(p, s.condition, st, 0, end) {
      var a: nat :| ValueOf(p, s.condition, st, a) == Value(0, end);
      assert Meaning(p, s, st, a + 1) == Done(Normal, end);
    } else {
      var how := if o == Normal then Broke else Returned;
      var a := RoundFuel(p, s, st, how, end);
      assert RoundWith(p, s, st, how, end, a);
      assert Meaning(p, s, st, a + 1) == Done(o, end);
    }
  }

  lemma {:induction false} Roll(p: Program, s: Stmt, sts: seq<Store>, o: Outcome, end: Store)
    requires (s.While? || s.Loop?) && Rounds(p, s, sts) && Stops(p, s, sts[|sts| - 1], o, end)
    ensures Ends(p, s, sts[0], o, end)
    decreases |sts|
  {
    hide Stops, GoesOn, Ends;
    if |sts| == 1 {
      StopEnds(p, s, sts[0], o, end);
    } else {
      assert GoesOn(p, s, sts[0], sts[1]);
      Roll(p, s, sts[1..], o, end);
      RoundThen(p, s, sts[0], sts[1], o, end);
    }
  }

  /** A loop ends so exactly when it has a list of rounds, each of which ends normally or
      with next, and then its condition is zero, or a round breaks, or a round returns. */
  lemma LoopMeans(p: Program, s: Stmt, st: Store, o: Outcome, end: Store)
    requires s.While? || s.Loop?
    ensures Ends(p, s, st, o, end) <==>
            exists sts :: sts != [] && Rounds(p, s, sts) && sts[0] == st && Stops(p, s, sts[|sts| - 1], o, end)
  {
    hide Stops, Rounds;
    if Ends(p, s, st, o, end) {
      var f: nat :| Meaning(p, s, st, f) == Done(o, end);
      var sts := Unroll(p, s, st, f);
    }
    if sts :| sts != [] && Rounds(p, s, sts) && sts[0] == st && Stops(p, s, sts[|sts| - 1], o, end) {
      Roll(p, s, sts, o, end);
    }
  }

  // ----- lists -----

  /** A list goes on behind a part of it exactly when that part ends normally. */
  lemma {:induction false} ListSplits(p: Program, a: seq<Stmt>, b: seq<Stmt>, st: Store, fuel: nat)
    ensures var r := MeaningOfList(p, a, st, fuel);
            MeaningOfList(p, a + b, st, fuel) ==
              if r.Done? && r.outcome == Normal then MeaningOfList(p, b, r.store, fuel) else r
    decreases a
  {
    if a == [] {
      assert a + b == b;
    } else {
      var r := Meaning(p, a[0], st, fuel);
      assert (a + b)[0] == a[0] && (a + b)[1..] == a[1..] + b;
      if r.Done? {
        ListSplits(p, a[1..], b, r.store, fuel);
      }
    }
  }

  /** A break ends the loop with the store in front of it, and what follows it is not
      done. */
  lemma BreakEnds(p: Program, before: seq<Stmt>, after: seq<Stmt>, st: Store, mid: Store)
    requires Ends(p, Block(before), st, Normal, mid)
    ensures Ends(p, Loop(Block(before + [Break] + after)), st, Normal, mid)
  {
    var f: nat :| Meaning(p, Block(before), st, f) == Done(Normal, mid);
    var body := before + ([Break] + after);
    ListSplits(p, before, [Break] + after, st, f);
    assert before + [Break] + after == body;
    assert Meaning(p, Block(body), st, f) == Done(Broke, mid);
    assert Meaning(p, Loop(Block(body)), st, f + 1) == Done(Normal, mid);
  }

  /** A next ends the round only: a loop in which something follows it is the loop without
      both. */
  lemma NextGoesOn(p: Program, condition: Expr, before: seq<Stmt>, after: seq<Stmt>, st: Store, fuel: nat)
    ensures Meaning(p, While(condition, Block(before + [Next] + after)), st, fuel) ==
            Meaning(p, While(condition, Block(before)), st, fuel)
    ensures Meaning(p, Loop(Block(before + [Next] + after)), st, fuel) == Meaning(p, Loop(Block(before)), st, fuel)
  {
    NextInLoop(p, While(condition, Block(before + [Next] + after)), While(condition, Block(before)), before, after,
               st, fuel);
    NextInLoop(p, Loop(Block(before + [Next] + after)), Loop(Block(before)), before, after, st, fuel);
  }

  lemma {:induction false} NextInLoop(
    p: Program, s: Stmt, t: Stmt, before: seq<Stmt>, after: seq<Stmt>, st: Store, fuel: nat)
    requires (s.While? && t.While? && s.condition == t.condition) || (s.Loop? && t.Loop?)
    requires s.block == Block(before + [Next] + after) && t.block == Block(before)
    ensures Meaning(p, s, st, fuel) == Meaning(p, t, st, fuel)
    decreases fuel
  {
    if fuel > 0 {
      var v := if s.While? then ValueOf(p, s.condition, st, fuel - 1) else Value(1, st);
      if v.Value? && v.v != 0 {
        NextRound(p, before, after, v.store, fuel - 1);
        var r := MeaningOfList(p, before, v.store, fuel - 1);
        assert Meaning(p, t.block, v.store, fuel - 1) == r;
        if r.Done? {
          NextInLoop(p, s, t, before, after, r.store, fuel - 1);
        }
      }
    }
  }

  lemma NextRound(p: Program, before: seq<Stmt>, after: seq<Stmt>, st: Store, fuel: nat)
    ensures var r := MeaningOfList(p, before, st, fuel);
            Meaning(p, Block(before + [Next] + after), st, fuel) ==
              if r.Done? && r.outcome == Normal then Done(Continued, r.store) else r
  {
    ListSplits(p, before, [Next] + after, st, fuel);
    assert before + [Next] + after == before + ([Next] + after);
  }

  // ----- arms -----

  /** if and else-if arms with an end. */
  function Arms(arms: seq<(Expr, Stmt)>, last: Cond): Cond {
    if arms == [] then last else Arm(arms[0].0, arms[0].1, Arms(arms[1..], last))
  }

  /** The conditions in front of number k are zero; stores are those between them. */
  ghost predicate Zeros(p: Program, arms: seq<(Expr, Stmt)>, k: nat, stores: seq<Store>, fuel: nat)
    requires k <= |arms|
  {
    |stores| == k + 1 && forall i :: 0 <= i < k ==> ValueOf(p, arms[i].0, stores[i], fuel) == Value(0, stores[i + 1])
  }

  lemma {:induction false} SkipArms(
    p: Program, arms: seq<(Expr, Stmt)>, last: Cond, k: nat, stores: seq<Store>, fuel: nat)
    requires k <= |arms| && Zeros(p, arms, k, stores, fuel)
    ensures MeaningOfCond(p, Arms(arms, last), stores[0], fuel) ==
            MeaningOfCond(p, Arms(arms[k..], last), stores[k], fuel)
    decreases k
  {
    if k == 0 {
      assert arms[0..] == arms;
    } else {
      assert ValueOf(p, arms[0].0, stores[0], fuel) == Value(0, stores[1]);
      SkipArms(p, arms[1..], last, k - 1, stores[1..], fuel);
      assert arms[1..][k - 1..] == arms[k..];
    }
  }

  /** The block of the first arm whose condition is not zero is done, and no other. */
  lemma FirstArm(
    p: Program, arms: seq<(Expr, Stmt)>, last: Cond, k: nat, stores: seq<Store>, v: int, mid: Store, fuel: nat)
    requires k < |arms| && Zeros(p, arms, k, stores, fuel)
    requires ValueOf(p, arms[k].0, stores[k], fuel) == Value(v, mid) && v != 0
    ensures Meaning(p, If(Arms(arms, last)), stores[0], fuel) == Meaning(p, arms[k].1, mid, fuel)
  {
    SkipArms(p, arms, last, k, stores, fuel);
    assert arms[k..][0] == arms[k];
  }

  /** If all are zero, the block of the else is, or nothing. */
  lemma NoArm(p: Program, arms: seq<(Expr, Stmt)>, block: Stmt, stores: seq<Store>, fuel: nat)
    requires Zeros(p, arms, |arms|, stores, fuel)
    ensures Meaning(p, If(Arms(arms, Else(block))), stores[0], fuel) == Meaning(p, block, stores[|arms|], fuel)
    ensures Meaning(p, If(Arms(arms, NoElse)), stores[0], fuel) == Done(Normal, stores[|arms|])
  {
    SkipArms(p, arms, Else(block), |arms|, stores, fuel);
    SkipArms(p, arms, NoElse, |arms|, stores, fuel);
    assert arms[|arms|..] == [];
  }

}
