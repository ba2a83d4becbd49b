/** The cyclic barrier under a reset that comes at any time, from a thread that is no
    party and that may free the barrier when all parties have called await. */
module CyclicBarrierCancel {
  import opened CyclicBarrier

  /** Where that thread is in its call of reset. */
  datatype ResetPc = Ready | Sending(i: nat) | Sent

  /** early counts how often inAwait came back to zero while a party had not entered. */
  datatype Whole = Whole(s: State, reset: ResetPc, early: nat)

  datatype Step = Party(a: Action) | Break | BreakPost | CallFree | FreePost | FreeWait

  predicate AllEntered(s: State) {
    forall t :: 0 <= t < |s.pcs| ==> s.pcs[t] != Before
  }

  predicate OfParty(a: Action) {
    !a.DoReset? && !a.DoFreePost? && !a.DoFreeWait?
  }

  predicate May(w: Whole, st: Step) {
    match st
    case Party(a) => OfParty(a) && Enabled(w.s, 0, a)
    case Break => w.reset == Ready && w.s.free == NotCalled
    case BreakPost => w.reset.Sending?
    case CallFree => !w.reset.Sending? && w.s.free == NotCalled && AllEntered(w.s)
    case FreePost => Enabled(w.s, 0, DoFreePost)
    case FreeWait => Enabled(w.s, 0, DoFreeWait)
  }

  function Next(w: Whole, st: Step): Whole
    requires May(w, st)
  {
    match st
    case Party(a) =>
      var s := Do(w.s, 0, a);
      Whole(s, w.reset, w.early + if s.zeroed > w.s.zeroed && !AllEntered(w.s) then 1 else 0)
    case Break => Whole(w.s.(f := Reset(w.s.f)), Sending(0), w.early)
    case BreakPost =>
      if w.reset.i < w.s.f.parties - 1 then
        Whole(w.s.(blocked := w.s.blocked + 1), Sending(w.reset.i + 1), w.early)
      else w.(reset := Sent)
    case CallFree => w.(s := w.s.(f := Reset(w.s.f), free := FreePosting(0)))
    case FreePost => w.(s := Do(w.s, 0, DoFreePost))
    case FreeWait => w.(s := Do(w.s, 0, DoFreeWait))
  }

  function Begin(n: nat): Whole {
    Whole(Start(n), Ready, 0)
  }

  predicate IsWhole(w: Whole, run: seq<Step>)
    decreases |run|
  {
    run == [] || (May(w, run[0]) && IsWhole(Next(w, run[0]), run[1..]))
  }

  function End(w: Whole, run: seq<Step>): Whole
    requires IsWhole(w, run)
    decreases |run|
  {
    if run == [] then w else End(Next(w, run[0]), run[1..])
  }

  // ----- the invariant -----

  /** The posts that the thread still has to make. */
  function Owed(w: Whole): nat {
    var n := |w.s.pcs|;
    (if w.reset.Sending? && w.reset.i < n then n - 1 - w.reset.i else 0)
    + if w.s.free.FreePosting? && w.s.free.i < n then n - 1 - w.s.free.i else 0
  }

  /** After a reset: who still waits has a post, made or owed; each time inAwait came to
      zero makes one post of harm; and that happens once more after the last entry. */
  ghost predicate Broken(w: Whole) {
    var s, n := w.s, |w.s.pcs|;
    var before, waiting, inside := Tally(n, KBefore, s.pcs), Tally(n, KWaiting, s.pcs), Tally(n, KInside, s.pcs);
    && InRanges(s) && s.f.left == 0 && s.f.isBroken && s.f.inAwait == waiting + inside
    && (w.reset.Sending? ==> w.reset.i <= n - 1 && s.free == NotCalled)
    && (s.free != NotCalled ==> before == 0)
    && waiting <= s.blocked + Owed(w)
    && s.harm + Tally(n, KHarm, s.pcs) + (if s.free == Destroyed then 1 else 0) == s.zeroed
    && s.zeroed == w.early + if before == 0 && waiting + inside == 0 then 1 else 0
  }

  ghost predicate Kept(w: Whole) {
    if w.reset == Ready && w.s.free == NotCalled then Inv(w.s) && w.early == 0 else Broken(w)
  }

  lemma {:induction false} NobodyBefore(n: nat, pcs: seq<Pc>)
    ensures Tally(n, KBefore, pcs) == 0 <==> forall t :: 0 <= t < |pcs| ==> pcs[t] != Before
  {
    if pcs != [] {
      NobodyBefore(n, pcs[1..]);
      assert Tally(n, KBefore, pcs) == 0 ==> forall t :: 0 < t < |pcs| ==> pcs[t] == pcs[1..][t - 1];
      if forall t :: 0 <= t < |pcs| ==> pcs[t] != Before {
        assert forall t :: 0 <= t < |pcs[1..]| ==> pcs[1..][t] == pcs[t + 1];
      }
    }
  }

  /** The first reset: no more wait than it has posts for, or all have theirs. */
  lemma BreakKeeps(w: Whole, st: Step)
    requires Kept(w) && w.reset == Ready && w.s.free == NotCalled && May(w, st) && (st.Break? || st.CallFree?)
    ensures Broken(Next(w, st))
  {
    hide Tally;
    TallyTotal(|w.s.pcs|, w.s.pcs);
    NobodyBefore(|w.s.pcs|, w.s.pcs);
  }

  lemma PartyKeeps(w: Whole, a: Action)
    requires Broken(w) && May(w, Party(a)) && (a.DoEnter? || a.DoPass? || a.DoCheck? || a.DoPost?)
    ensures Broken(Next(w, Party(a)))
  {
    hide Broken, Do, Tally;
    if a.DoEnter? || a.DoPass? {
      EnterKeeps(w, a);
    } else {
      PostKeeps(w, a);
    }
  }

  lemma EnterKeeps(w: Whole, a: Action)
    requires Broken(w) && May(w, Party(a)) && (a.DoEnter? || a.DoPass?)
    ensures Broken(Next(w, Party(a)))
  {
    hide Tally;
    TallyTotal(|w.s.pcs|, w.s.pcs);
    Updates(w.s, a.t, Do(w.s, 0, a).pcs[a.t]);
  }

  lemma PostKeeps(w: Whole, a: Action)
    requires Broken(w) && May(w, Party(a)) && (a.DoCheck? || a.DoPost?)
    ensures Broken(Next(w, Party(a)))
  {
    hide Tally;
    Updates(w.s, a.t, Do(w.s, 0, a).pcs[a.t]);
  }

  lemma LeaveKeeps(w: Whole, a: Action)
    requires Broken(w) && May(w, Party(a)) && (a.DoLeave? || a.DoHarm?)
    ensures Broken(Next(w, Party(a)))
  {
    hide Tally;
    TallyTotal(|w.s.pcs|, w.s.pcs);
    NobodyBefore(|w.s.pcs|, w.s.pcs);
    Updates(w.s, a.t, Do(w.s, 0, a).pcs[a.t]);
  }

  lemma ThreadKeeps(w: Whole, st: Step)
    requires Broken(w) && May(w, st) && !st.Party?
    ensures Broken(Next(w, st))
  {
    hide Tally;
    NobodyBefore(|w.s.pcs|, w.s.pcs);
  }

  lemma StepKeeps(w: Whole, st: Step)
    requires Kept(w) && May(w, st)
    ensures Kept(Next(w, st)) && |Next(w, st).s.pcs| == |w.s.pcs|
  {
    hide Broken, Inv;
    if w.reset == Ready && w.s.free == NotCalled {
      if st.Party? {
        InvStep(w.s, 0, st.a);
        Unbroken(w, st.a);
      } else {
        BreakKeeps(w, st);
      }
    } else if st.Party? {
      if st.a.DoLeave? || st.a.DoHarm? {
        LeaveKeeps(w, st.a);
      } else {
        PartyKeeps(w, st.a);
      }
    } else {
      ThreadKeeps(w, st);
    }
  }

  /** Without a reset nobody leaves before all have entered. */
  lemma Unbroken(w: Whole, a: Action)
    requires Inv(w.s) && w.s.free == NotCalled && May(w, Party(a)) && Inv(Do(w.s, 0, a))
    ensures Do(w.s, 0, a).zeroed > w.s.zeroed ==> AllEntered(w.s)
  {
    hide Tally;
    TallyTotal(|w.s.pcs|, w.s.pcs);
    NobodyBefore(|w.s.pcs|, w.s.pcs);
    Updates(w.s, a.t, Do(w.s, 0, a).pcs[a.t]);
  }

  lemma {:induction false} RunKeepsIt(w: Whole, run: seq<Step>)
    requires Kept(w) && IsWhole(w, run)
    ensures Kept(End(w, run)) && |End(w, run).s.pcs| == |w.s.pcs|
    decreases |run|
  {
    hide Kept;
    if run != [] {
      StepKeeps(w, run[0]);
      RunKeepsIt(Next(w, run[0]), run[1..]);
    }
  }

  lemma BeginKept(n: nat)
    requires n > 0
    ensures Kept(Begin(n))
  {
    StartInv(n);
  }

  // ----- the results -----

  /** A bound on the steps that are left. */
  function WorkLeft(w: Whole): int {
    var n := |w.s.pcs|;
    Work(w.s) + match w.reset
                case Ready => n + 1
                case Sending(i) => n - i
                case Sent => 0
  }

  lemma KeptRanges(w: Whole)
    requires Kept(w)
    ensures InRanges(w.s) && (w.reset.Sending? ==> w.reset.i <= |w.s.pcs| - 1)
  {
    if w.reset == Ready && w.s.free == NotCalled {
      Ranges(w.s);
    }
  }

  lemma StepWorks(w: Whole, st: Step)
    requires Kept(w) && May(w, st)
    ensures 0 <= WorkLeft(Next(w, st)) < WorkLeft(w)
  {
    hide Kept, Tally;
    KeptRanges(w);
    if st.Party? {
      hide Do, Enabled;
      PartyWork(w.s, 0, st.a);
    }
  }

  lemma {:induction false} RunIsBounded(w: Whole, run: seq<Step>)
    requires Kept(w) && IsWhole(w, run) && 0 <= WorkLeft(w)
    ensures |run| <= WorkLeft(w)
    decreases |run|
  {
    hide Kept, WorkLeft;
    if run != [] {
      StepKeeps(w, run[0]);
      StepWorks(w, run[0]);
      RunIsBounded(Next(w, run[0]), run[1..]);
    }
  }

  /** Nothing can go on, but for the optional calls of reset and free. */
  ghost predicate Stuck(w: Whole) {
    forall st :: May(w, st) ==> st == Break || st == CallFree
  }

  lemma StuckParties(w: Whole)
    requires Stuck(w)
    ensures forall t :: 0 <= t < |w.s.pcs| ==> w.s.pcs[t] == Waiting || w.s.pcs[t] == Out
    ensures (exists t :: 0 <= t < |w.s.pcs| && w.s.pcs[t] == Waiting) ==> w.s.blocked == 0
    ensures !w.reset.Sending? && !w.s.free.FreePosting? && (w.s.free == AwaitingAll ==> w.s.harm == 0)
  {
    var s := w.s;
    forall t | 0 <= t < |s.pcs| ensures s.pcs[t] == Waiting || s.pcs[t] == Out
      ensures s.pcs[t] == Waiting ==> s.blocked == 0
    {
      assert !May(w, Party(DoEnter(t))) && !May(w, Party(DoCheck(t))) && !May(w, Party(DoPost(t)))
        && !May(w, Party(DoLeave(t))) && !May(w, Party(DoHarm(t))) && !May(w, Party(DoPass(t)));
    }
    assert !May(w, BreakPost) && !May(w, FreePost) && !May(w, FreeWait);
  }

  /** Whenever the reset comes, nobody waits for ever. */
  lemma StuckIsEnd(w: Whole)
    requires Kept(w) && Stuck(w)
    ensures forall t :: 0 <= t < |w.s.pcs| ==> w.s.pcs[t] == Out
    ensures w.s.free == NotCalled || w.s.free == Destroyed
  {
    hide Tally, Stuck;
    var s, n := w.s, |w.s.pcs|;
    StuckParties(w);
    OnlyWaiting(n, s.pcs);
    if Tally(n, KWaiting, s.pcs) > 0 {
      SomeWaits(n, s.pcs);
    }
    forall t | 0 <= t < n ensures s.pcs[t] == Out {
      TallyUpdate(n, KWaiting, s.pcs, t, Out);
    }
  }

  /** Every run with a reset at any time is finite, and where it cannot go on every party
      is out and a free that was called is done. */
  lemma CancelLive(n: nat, run: seq<Step>)
    requires n > 0 && IsWhole(Begin(n), run)
    ensures |run| <= n * (n + 5) + 2 * n + 4
    ensures var w := End(Begin(n), run);
            && |w.s.pcs| == n
            && (Stuck(w) ==>
                  && (w.s.free == NotCalled || w.s.free == Destroyed)
                  && forall t :: 0 <= t < n ==> w.s.pcs[t] == Out)
  {
    hide Kept, Stuck;
    BeginKept(n);
    TallySame(n, KWork, n);
    RunIsBounded(Begin(n), run);
    RunKeepsIt(Begin(n), run);
    if Stuck(End(Begin(n), run)) {
      StuckIsEnd(End(Begin(n), run));
    }
  }

  // ----- free after such a reset -----

  ghost predicate SomebodyIn(pcs: seq<Pc>) {
    exists t :: 0 <= t < |pcs| && pcs[t] != Out
  }

  /** The barrier is destroyed and a party is not out of await. */
  ghost predicate LeftInside(w: Whole) {
    w.s.free == Destroyed && SomebodyIn(w.s.pcs)
  }

  /** That can still come. */
  ghost predicate MayLeaveInside(w: Whole) {
    exists more :: IsWhole(w, more) && LeftInside(End(w, more))
  }

  lemma AllOut(n: nat, pcs: seq<Pc>)
    requires Tally(n, KBefore, pcs) == Tally(n, KWaiting, pcs) == Tally(n, KInside, pcs) == Tally(n, KHarm, pcs) == 0
    ensures forall t :: 0 <= t < |pcs| ==> pcs[t] == Out
  {
    hide Tally;
    forall t | 0 <= t < |pcs| ensures pcs[t] == Out {
      TallyUpdate(n, KBefore, pcs, t, Out);
      TallyUpdate(n, KWaiting, pcs, t, Out);
      TallyUpdate(n, KInside, pcs, t, Out);
      TallyUpdate(n, KHarm, pcs, t, Out);
    }
  }

  /** When inAwait did not come to zero too early, a destroyed barrier has nobody inside. */
  lemma {:induction false} FreeWaits(w: Whole, more: seq<Step>)
    requires Kept(w) && IsWhole(w, more) && AllEntered(w.s)
    requires w.early == 0 || !SomebodyIn(w.s.pcs)
    ensures !LeftInside(End(w, more))
    decreases |more|
  {
    hide Kept;
    if more == [] {
      if w.early == 0 && w.s.free == Destroyed {
        DestroyedOut(w);
      }
    } else {
      StepKeeps(w, more[0]);
      FreeWaits(Next(w, more[0]), more[1..]);
    }
  }

  lemma DestroyedOut(w: Whole)
    requires Kept(w) && w.s.free == Destroyed && w.early == 0
    ensures forall t :: 0 <= t < |w.s.pcs| ==> w.s.pcs[t] == Out
  {
    hide Tally;
    AllOut(|w.s.pcs|, w.s.pcs);
  }

  /** The rest of a call of free that does not have to wait. */
  lemma {:induction false} FreeGoesThrough(w: Whole) returns (run: seq<Step>)
    requires (w.s.free.FreePosting? && w.s.free.i < |w.s.pcs| == w.s.f.parties) || w.s.free == AwaitingAll
    requires w.s.harm > 0
    ensures IsWhole(w, run) && End(w, run).s.free == Destroyed && End(w, run).s.pcs == w.s.pcs
    decreases if w.s.free == AwaitingAll then 0 else |w.s.pcs| - w.s.free.i
  {
    if w.s.free == AwaitingAll {
      run := [FreeWait];
      assert run[1..] == [];
    } else {
      var rest := FreeGoesThrough(Next(w, FreePost));
      run := [FreePost] + rest;
      assert run[1..] == rest;
    }
  }

  lemma {:induction false} SomeInHarmsWay(n: nat, pcs: seq<Pc>) returns (t: nat)
    requires Tally(n, KHarm, pcs) > 0
    ensures t < |pcs| && pcs[t] == InHarmsWay
  {
    if pcs[0] == InHarmsWay {
      t := 0;
    } else {
      t := SomeInHarmsWay(n, pcs[1..]);
      t := t + 1;
    }
  }

  lemma FreeAtOnce(w: Whole) returns (more: seq<Step>)
    requires May(w, CallFree) && w.s.harm > 0 && w.s.f.parties == |w.s.pcs| > 0 && SomebodyIn(w.s.pcs)
    ensures IsWhole(w, more) && LeftInside(End(w, more))
  {
    hide SomebodyIn;
    var rest := FreeGoesThrough(Next(w, CallFree));
    more := [CallFree] + rest;
    assert more[1..] == rest;
  }

  /** If it did, and somebody is still there, free can go through before that one. */
  lemma FreeOvertakes(w: Whole)
    requires Kept(w) && May(w, CallFree) && w.early > 0 && SomebodyIn(w.s.pcs)
    ensures MayLeaveInside(w)
  {
    hide Tally, LeftInside, SomebodyIn;
    if w.s.harm > 0 {
      var more := FreeAtOnce(w);
    } else {
      var n := |w.s.pcs|;
      NobodyBefore(n, w.s.pcs);
      var t := SomeInHarmsWay(n, w.s.pcs);
      OneMore(w, t);
      var rest := FreeAtOnce(Next(w, Party(DoHarm(t))));
      var more := [Party(DoHarm(t))] + rest;
      assert more[1..] == rest;
      assert IsWhole(w, more) && LeftInside(End(w, more));
    }
  }

  /** There is another one besides the one that posts. */
  lemma OneMore(w: Whole, t: nat)
    requires Broken(w) && AllEntered(w.s) && w.early > 0 && w.s.harm == 0 && w.s.free == NotCalled
    requires t < |w.s.pcs| && w.s.pcs[t] == InHarmsWay
    ensures SomebodyIn(w.s.pcs[t := Out])
  {
    hide Tally;
    var n, pcs := |w.s.pcs|, w.s.pcs[t := Out];
    NobodyBefore(n, w.s.pcs);
    TallyUpdate(n, KWaiting, w.s.pcs, t, Out);
    TallyUpdate(n, KInside, w.s.pcs, t, Out);
    TallyUpdate(n, KHarm, w.s.pcs, t, Out);
    if !SomebodyIn(pcs) {
      OnlyWaiting(n, pcs);
      NoneWaiting(n, pcs);
    }
  }

  lemma {:induction false} NoneWaiting(n: nat, pcs: seq<Pc>)
    requires forall t :: 0 <= t < |pcs| ==> pcs[t] == Out
    ensures Tally(n, KWaiting, pcs) == 0
  {
    if pcs != [] {
      NoneWaiting(n, pcs[1..]);
    }
  }

  /** A free that is called when all parties have entered can destroy the barrier while one
      of them is inside if and only if one is, and inAwait has come to zero before the
      last one entered; that takes a reset before. */
  lemma FreeIsSafe(n: nat, run: seq<Step>)
    requires n > 0 && IsWhole(Begin(n), run) && May(End(Begin(n), run), CallFree)
    ensures var w := End(Begin(n), run);
            && |w.s.pcs| == n
            && (MayLeaveInside(w) <==> w.early > 0 && SomebodyIn(w.s.pcs))
            && (w.early > 0 ==> w.reset == Sent)
  {
    hide IsWhole, End, LeftInside, SomebodyIn, Kept, AllEntered;
    var w := End(Begin(n), run);
    BeginKept(n);
    RunKeepsIt(Begin(n), run);
    BeginSize(n);
    EarlyIsReset(w);
    if w.early > 0 && SomebodyIn(w.s.pcs) {
      FreeOvertakes(w);
    } else {
      forall more | IsWhole(w, more) ensures !LeftInside(End(w, more)) {
        FreeWaits(w, more);
      }
    }
  }

  lemma EarlyIsReset(w: Whole)
    requires Kept(w) && w.s.free == NotCalled
    ensures w.early > 0 ==> w.reset != Ready
  {
  }

  lemma BeginSize(n: nat)
    ensures |Begin(n).s.pcs| == n
  {
  }

  lemma {:induction false} Onward(w: Whole, run: seq<Step>, st: Step)
    requires IsWhole(w, run) && May(End(w, run), st)
    ensures IsWhole(w, run + [st]) && End(w, run + [st]) == Next(End(w, run), st)
    decreases |run|
  {
    if run == [] {
      assert (run + [st])[1..] == [];
    } else {
      assert (run + [st])[1..] == run[1..] + [st];
      Onward(Next(w, run[0]), run[1..], st);
    }
  }

  /** Two parties: after a reset the first one is in and out before the second one
      comes, and free does not wait for that one. */
  lemma FreedTooEarly() returns (run: seq<Step>)
    ensures IsWhole(Begin(2), run) && End(Begin(2), run).early == 1
    ensures May(End(Begin(2), run), CallFree)
    ensures MayLeaveInside(End(Begin(2), run))
  {
    hide IsWhole, End, LeftInside;
    run := NoStep(2);
    var steps := [Break, BreakPost, BreakPost, Party(DoEnter(0)), Party(DoCheck(0)), Party(DoLeave(0)),
                  Party(DoEnter(1))];
    var i := 0;
    var w := Begin(2);
    while i < 7
      invariant 0 <= i <= 7 && IsWhole(Begin(2), run) && w == End(Begin(2), run)
      invariant |w.s.pcs| == 2 && w.s.f.parties == 2 && w.s.free == NotCalled
      invariant w.early == if i < 6 then 0 else 1
      invariant w.reset == if i == 0 then Ready else if i < 3 then Sending(i - 1) else Sent
      invariant i > 0 ==> w.s.f.left == 0 && w.s.f.isBroken
      invariant w.s.f.inAwait == (if i < 4 || i == 6 then 0 else 1)
      invariant w.s.pcs[1] == (if i < 7 then Before else Finishing)
      invariant w.s.pcs[0] == if i < 4 then Before else if i == 4 then Finishing
                              else if i == 5 then Leaving else InHarmsWay
    {
      Onward(Begin(2), run, steps[i]);
      w := Next(w, steps[i]);
      run := run + [steps[i]];
      i := i + 1;
    }
    FreeIsSafe(2, run);
  }

  lemma NoStep(n: nat) returns (run: seq<Step>)
    ensures IsWhole(Begin(n), run) && End(Begin(n), run) == Begin(n)
  {
    run := [];
  }
}
