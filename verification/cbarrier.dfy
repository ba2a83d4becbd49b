/** The cyclic barrier of tutils/cbarrier.c: its two locked regions, its semaphores,
    and all interleavings of one await by each party, with one of the parties
    freeing the barrier after its own await. */
module CyclicBarrier {

  /** The fields under the mutex. */
  datatype Fields = Fields(parties: nat, left: nat, inAwait: int, isBroken: bool)

  /** The first locked region of await; tells whether this is the last party. */
  function Enter(f: Fields): (Fields, bool) {
    var left := if f.left > 0 then f.left - 1 else f.left;
    (f.(inAwait := f.inAwait + 1, left := left), left == 0)
  }

  /** The second locked region; tells whether nobody is inside any more. */
  function Leave(f: Fields): (Fields, bool) {
    (f.(inAwait := f.inAwait - 1), f.inAwait - 1 == 0)
  }

  function Reset(f: Fields): Fields {
    f.(left := 0, isBroken := true)
  }

  /** The fields, with the numbers of parties that went through the first and through
      the second region. */
  class Barrier {
    const parties: nat
    var left: nat
    var inAwait: int
    var isBroken: bool
    ghost var entered: nat
    ghost var gone: nat

    ghost predicate Valid()
      reads this
    {
      && inAwait == entered - gone
      && left == if isBroken || entered >= parties then 0 else parties - entered
    }

    constructor (num: nat)
      ensures Valid() && Get() == Fields(num, num, 0, false) && entered == gone == 0
    {
      parties, left, inAwait, isBroken := num, num, 0, false;
      entered, gone := 0, 0;
    }

    ghost function Get(): Fields
      reads this
    {
      Fields(parties, left, inAwait, isBroken)
    }

    /** The last party is told so, and all that come later; on a broken barrier
        everybody is. */
    method EnterRegion() returns (finished: bool)
      requires Valid()
      modifies this
      ensures Valid() && entered == old(entered) + 1 && gone == old(gone) && isBroken == old(isBroken)
      ensures finished <==> isBroken || entered >= parties
      ensures (Get(), finished) == Enter(old(Get()))
    {
      inAwait := inAwait + 1;
      if left > 0 {
        left := left - 1;
      }
      finished := left == 0;
      entered := entered + 1;
    }

    /** A party is told whether all that entered have left with it. */
    method LeaveRegion() returns (inHarmsWay: bool)
      requires Valid()
      modifies this
      ensures Valid() && entered == old(entered) && gone == old(gone) + 1 && isBroken == old(isBroken)
      ensures inHarmsWay <==> gone == entered
      ensures (Get(), inHarmsWay) == Leave(old(Get()))
    {
      inAwait := inAwait - 1;
      inHarmsWay := inAwait == 0;
      gone := gone + 1;
    }

    /** From now on nobody waits. */
    method ResetRegion()
      requires Valid()
      modifies this
      ensures Valid() && isBroken && entered == old(entered) && gone == old(gone)
      ensures Get() == Reset(old(Get()))
    {
      left := 0;
      isBroken := true;
    }
  }

  // ----- parties -----

  /** Where a party is in await: Waiting for the semaphore `blocked`; as the last
      one to enter at Finishing (before its look at isBroken) and Posting; Leaving
      before the second region; InHarmsWay before the last post. */
  datatype Pc = Before | Waiting | Finishing | Posting(i: nat) | Leaving | InHarmsWay | Out

  datatype FreePc = NotCalled | FreePosting(i: nat) | AwaitingAll | Destroyed

  /** blocked and harm are the two semaphores; zeroed counts how often inAwait came
      back to zero, freePosts the posts of the reset. */
  datatype State = State(
    f: Fields, blocked: nat, harm: nat, pcs: seq<Pc>, free: FreePc, zeroed: nat, freePosts: nat)

  datatype Action = DoEnter(t: nat) | DoPass(t: nat) | DoCheck(t: nat) | DoPost(t: nat) | DoLeave(t: nat)
                  | DoHarm(t: nat) | DoReset | DoFreePost | DoFreeWait

  function Start(n: nat): State {
    State(Fields(n, n, 0, false), 0, 0, seq(n, _ => Before), NotCalled, 0, 0)
  }

  /** freer is the party that may call free after its await. */
  predicate Enabled(s: State, freer: nat, a: Action) {
    match a
    case DoEnter(t) => t < |s.pcs| && s.pcs[t] == Before
    case DoPass(t) => t < |s.pcs| && s.pcs[t] == Waiting && s.blocked > 0
    case DoCheck(t) => t < |s.pcs| && s.pcs[t] == Finishing
    case DoPost(t) => t < |s.pcs| && s.pcs[t].Posting?
    case DoLeave(t) => t < |s.pcs| && s.pcs[t] == Leaving
    case DoHarm(t) => t < |s.pcs| && s.pcs[t] == InHarmsWay
    case DoReset => freer < |s.pcs| && s.pcs[freer] == Out && s.free == NotCalled
    case DoFreePost => s.free.FreePosting?
    case DoFreeWait => s.free == AwaitingAll && s.harm > 0
  }

  function Do(s: State, freer: nat, a: Action): State
    requires Enabled(s, freer, a)
  {
    match a
    case DoEnter(t) =>
      var (f, finished) := Enter(s.f);
      s.(f := f, pcs := s.pcs[t := if finished then Finishing else Waiting])
    case DoPass(t) => s.(blocked := s.blocked - 1, pcs := s.pcs[t := Leaving])
    case DoCheck(t) => s.(pcs := s.pcs[t := if s.f.isBroken then Leaving else Posting(0)])
    case DoPost(t) =>
      var i := s.pcs[t].i;
      if i < s.f.parties - 1 then s.(blocked := s.blocked + 1, pcs := s.pcs[t := Posting(i + 1)])
      else s.(pcs := s.pcs[t := Leaving])
    case DoLeave(t) =>
      var (f, inHarmsWay) := Leave(s.f);
      s.(f := f, pcs := s.pcs[t := if inHarmsWay then InHarmsWay else Out],
         zeroed := s.zeroed + if inHarmsWay then 1 else 0)
    case DoHarm(t) => s.(harm := s.harm + 1, pcs := s.pcs[t := Out])
    case DoReset => s.(f := Reset(s.f), free := FreePosting(0))
    case DoFreePost =>
      var i := s.free.i;
      if i < s.f.parties - 1 then
        s.(blocked := s.blocked + 1, freePosts := s.freePosts + 1, free := FreePosting(i + 1))
      else s.(free := AwaitingAll)
    case DoFreeWait => s.(harm := s.harm - 1, free := Destroyed)
  }

  predicate IsRun(s: State, freer: nat, run: seq<Action>)
    decreases |run|
  {
    run == [] || (Enabled(s, freer, run[0]) && IsRun(Do(s, freer, run[0]), freer, run[1..]))
  }

  function After(s: State, freer: nat, run: seq<Action>): State
    requires IsRun(s, freer, run)
    decreases |run|
  {
    if run == [] then s else After(Do(s, freer, run[0]), freer, run[1..])
  }

  // ----- counting -----

  /** What is summed over the parties. */
  datatype Kind = KBefore | KWaiting | KFinishing | KInside | KHarm | KOut | KOwed | KWork

  /** n is the number of parties.  KInside: in await but not waiting; KOwed: the posts
      the last party still has to make; KWork: a bound on its remaining steps. */
  function Weight(n: nat, k: Kind, p: Pc): nat {
    match k
    case KBefore => if p == Before then 1 else 0
    case KWaiting => if p == Waiting then 1 else 0
    case KFinishing => if p == Finishing then 1 else 0
    case KInside => if p == Finishing || p.Posting? || p == Leaving then 1 else 0
    case KHarm => if p == InHarmsWay then 1 else 0
    case KOut => if p == Out then 1 else 0
    case KOwed =>
      (match p
       case Finishing => if n > 0 then n - 1 else 0
       case Posting(i) => if n - 1 > i then n - 1 - i else 0
       case _ => 0)
    case KWork =>
      (match p
       case Before => n + 5
       case Waiting => 3
       case Finishing => n + 4
       case Posting(i) => 3 + if n > i then n - i else 0
       case Leaving => 2
       case InHarmsWay => 1
       case Out => 0)
  }

  function Tally(n: nat, k: Kind, pcs: seq<Pc>): nat {
    if pcs == [] then 0 else Weight(n, k, pcs[0]) + Tally(n, k, pcs[1..])
  }

  lemma {:induction false} TallyUpdate(n: nat, k: Kind, pcs: seq<Pc>, t: nat, p: Pc)
    requires t < |pcs|
    ensures Tally(n, k, pcs[t := p]) == Tally(n, k, pcs) - Weight(n, k, pcs[t]) + Weight(n, k, p)
    ensures Weight(n, k, pcs[t]) <= Tally(n, k, pcs)
  {
    if t == 0 {
      assert pcs[t := p][1..] == pcs[1..];
    } else {
      assert pcs[t := p][1..] == pcs[1..][t - 1 := p];
      TallyUpdate(n, k, pcs[1..], t - 1, p);
    }
  }

  lemma {:induction false} TallyTotal(n: nat, pcs: seq<Pc>)
    ensures Tally(n, KBefore, pcs) + Tally(n, KWaiting, pcs) + Tally(n, KInside, pcs) + Tally(n, KHarm, pcs)
            + Tally(n, KOut, pcs) == |pcs|
    ensures Tally(n, KFinishing, pcs) <= Tally(n, KInside, pcs)
    ensures Tally(n, KFinishing, pcs) > 0 ==> Tally(n, KOwed, pcs) >= n - 1
    ensures Tally(n, KInside, pcs) == 0 ==> Tally(n, KOwed, pcs) == 0
  {
    if pcs != [] {
      TallyTotal(n, pcs[1..]);
    }
  }

  // ----- the invariant -----

  ghost predicate Inv(s: State) {
    var n := |s.pcs|;
    var before, waiting := Tally(n, KBefore, s.pcs), Tally(n, KWaiting, s.pcs);
    var inside, finishing := Tally(n, KInside, s.pcs), Tally(n, KFinishing, s.pcs);
    && n > 0 && s.f.parties == n && s.f.left == before && s.f.inAwait == waiting + inside
    && (forall t :: 0 <= t < n && s.pcs[t].Posting? ==> s.pcs[t].i <= n - 1)
    && finishing <= 1
    && (before > 0 ==> waiting == n - before && s.blocked == 0 && s.free == NotCalled && Tally(n, KOwed, s.pcs) == 0)
    && (before == 0 ==> s.blocked + Tally(n, KOwed, s.pcs) == waiting + s.freePosts)
    && (s.free == NotCalled ==> s.freePosts == 0 && !s.f.isBroken)
    && (s.free != NotCalled ==> finishing == 0)
    && (s.free.FreePosting? ==> s.free.i <= n - 1)
    && var settled := if before == 0 && waiting + inside == 0 then 1 else 0;
       && s.harm + Tally(n, KHarm, s.pcs) + (if s.free == Destroyed then 1 else 0) == settled
       && s.zeroed == settled
  }

  /** The tally of kind k after party t moved to p, and what t weighed in it. */
  ghost predicate Moved(pcs: seq<Pc>, t: nat, p: Pc, k: Kind)
    requires t < |pcs|
  {
    var n := |pcs|;
    && Tally(n, k, pcs[t := p]) == Tally(n, k, pcs) - Weight(n, k, pcs[t]) + Weight(n, k, p)
    && Weight(n, k, pcs[t]) <= Tally(n, k, pcs)
  }

  lemma Updates(s: State, t: nat, p: Pc)
    requires t < |s.pcs|
    ensures Moved(s.pcs, t, p, KBefore) && Moved(s.pcs, t, p, KWaiting) && Moved(s.pcs, t, p, KFinishing)
    ensures Moved(s.pcs, t, p, KInside) && Moved(s.pcs, t, p, KHarm) && Moved(s.pcs, t, p, KOut)
    ensures Moved(s.pcs, t, p, KOwed) && Moved(s.pcs, t, p, KWork)
  {
    forall k: Kind
      ensures Moved(s.pcs, t, p, k)
    {
      TallyUpdate(|s.pcs|, k, s.pcs, t, p);
    }
  }

  /** Steps of a party that enters or passes the semaphore. */
  lemma InvEnter(s: State, freer: nat, a: Action)
    requires Inv(s) && Enabled(s, freer, a) && (a.DoEnter? || a.DoPass?)
    ensures Inv(Do(s, freer, a))
  {
    hide Tally;
    TallyTotal(|s.pcs|, s.pcs);
    Updates(s, a.t, Do(s, freer, a).pcs[a.t]);
  }

  /** Steps of the last party while it releases the others. */
  lemma InvRelease(s: State, freer: nat, a: Action)
    requires Inv(s) && Enabled(s, freer, a) && (a.DoCheck? || a.DoPost?)
    ensures Inv(Do(s, freer, a))
  {
    hide Inv, Do, Tally;
    if a.DoCheck? {
      InvCheck(s, freer, a);
    } else {
      InvPost(s, freer, a);
    }
  }

  lemma InvCheck(s: State, freer: nat, a: Action)
    requires Inv(s) && Enabled(s, freer, a) && a.DoCheck?
    ensures Inv(Do(s, freer, a))
  {
    hide Tally;
    TallyTotal(|s.pcs|, s.pcs);
    Updates(s, a.t, Do(s, freer, a).pcs[a.t]);
  }

  lemma InvPost(s: State, freer: nat, a: Action)
    requires Inv(s) && Enabled(s, freer, a) && a.DoPost?
    ensures Inv(Do(s, freer, a))
  {
    hide Tally;
    TallyTotal(|s.pcs|, s.pcs);
    Updates(s, a.t, Do(s, freer, a).pcs[a.t]);
  }

  lemma InvLeave(s: State, freer: nat, a: Action)
    requires Inv(s) && Enabled(s, freer, a) && (a.DoLeave? || a.DoHarm?)
    ensures Inv(Do(s, freer, a))
  {
    hide Tally;
    TallyTotal(|s.pcs|, s.pcs);
    Updates(s, a.t, Do(s, freer, a).pcs[a.t]);
  }

  lemma InvFree(s: State, freer: nat, a: Action)
    requires Inv(s) && Enabled(s, freer, a) && (a.DoReset? || a.DoFreePost? || a.DoFreeWait?)
    ensures Inv(Do(s, freer, a))
  {
    hide Tally;
    TallyTotal(|s.pcs|, s.pcs);
    if a.DoReset? {
      Updates(s, freer, Out);
    }
  }

  lemma InvStep(s: State, freer: nat, a: Action)
    requires Inv(s) && Enabled(s, freer, a)
    ensures Inv(Do(s, freer, a))
  {
    hide Inv, Do;
    if a.DoEnter? || a.DoPass? {
      InvEnter(s, freer, a);
    } else if a.DoCheck? || a.DoPost? {
      InvRelease(s, freer, a);
    } else if a.DoLeave? || a.DoHarm? {
      InvLeave(s, freer, a);
    } else {
      InvFree(s, freer, a);
    }
  }

  lemma StartInv(n: nat)
    requires n > 0
    ensures Inv(Start(n))
  {
    forall k: Kind
      ensures Tally(n, k, Start(n).pcs) == n * Weight(n, k, Before)
    {
      TallySame(n, k, n);
    }
    assert n * 1 == n && n * 0 == 0;
  }

  lemma {:induction false} TallySame(n: nat, k: Kind, m: nat)
    ensures Tally(n, k, seq(m, _ => Before)) == m * Weight(n, k, Before)
  {
    if m > 0 {
      assert seq(m, _ => Before)[1..] == seq(m - 1, _ => Before);
      TallySame(n, k, m - 1);
    }
  }

  lemma {:induction false} RunInv(s: State, freer: nat, run: seq<Action>)
    requires Inv(s) && IsRun(s, freer, run)
    ensures Inv(After(s, freer, run)) && |After(s, freer, run).pcs| == |s.pcs|
    decreases |run|
  {
    if run != [] {
      InvStep(s, freer, run[0]);
      RunInv(Do(s, freer, run[0]), freer, run[1..]);
    }
  }

  // ----- the results -----

  /** What the invariant says about single parties. */
  lemma Parties(s: State)
    requires Inv(s)
    ensures (exists t :: 0 <= t < |s.pcs| && s.pcs[t] == Before)
            ==> forall t :: 0 <= t < |s.pcs| ==> s.pcs[t] == Before || s.pcs[t] == Waiting
    ensures s.free == Destroyed ==> forall t :: 0 <= t < |s.pcs| ==> s.pcs[t] == Out
  {
    hide Tally;
    TallyTotal(|s.pcs|, s.pcs);
    forall t | 0 <= t < |s.pcs|
      ensures s.pcs[t] == Before ==> Tally(|s.pcs|, KBefore, s.pcs) > 0
      ensures Tally(|s.pcs|, KBefore, s.pcs) > 0 ==> s.pcs[t] == Before || s.pcs[t] == Waiting
      ensures s.free == Destroyed ==> s.pcs[t] == Out
    {
      Updates(s, t, Out);
      assert Weight(|s.pcs|, KBefore, s.pcs[t]) + Weight(|s.pcs|, KWaiting, s.pcs[t])
        + Weight(|s.pcs|, KInside, s.pcs[t]) + Weight(|s.pcs|, KHarm, s.pcs[t]) + Weight(|s.pcs|, KOut, s.pcs[t]) == 1;
      assert Weight(|s.pcs|, KInside, s.pcs[t]) <= Tally(|s.pcs|, KInside, s.pcs);
      assert Weight(|s.pcs|, KHarm, s.pcs[t]) <= Tally(|s.pcs|, KHarm, s.pcs);
      assert Weight(|s.pcs|, KOut, s.pcs[t]) <= Tally(|s.pcs|, KOut, s.pcs);
      assert Weight(|s.pcs|, KBefore, s.pcs[t]) <= Tally(|s.pcs|, KBefore, s.pcs);
      assert Weight(|s.pcs|, KWaiting, s.pcs[t]) <= Tally(|s.pcs|, KWaiting, s.pcs);
    }
  }

  /** In every interleaving: while a party has not entered, every other one that
      entered is still waiting; inAwait comes back to zero at most once; and when
      the barrier is destroyed all parties are out of await. */
  lemma BarrierSafe(n: nat, freer: nat, run: seq<Action>)
    requires n > 0 && IsRun(Start(n), freer, run)
    ensures var s := After(Start(n), freer, run);
            && |s.pcs| == n
            && ((exists t :: 0 <= t < n && s.pcs[t] == Before)
                ==> forall t :: 0 <= t < n ==> s.pcs[t] == Before || s.pcs[t] == Waiting)
            && s.zeroed <= 1
            && (s.free == Destroyed ==> forall t :: 0 <= t < n ==> s.pcs[t] == Out)
  {
    StartInv(n);
    RunInv(Start(n), freer, run);
    Parties(After(Start(n), freer, run));
  }

  /** A bound on the steps that are left. */
  function Work(s: State): int {
    var n := |s.pcs|;
    Tally(n, KWork, s.pcs)
    + match s.free
      case NotCalled => n + 3
      case FreePosting(i) => n + 2 - i
      case AwaitingAll => 1
      case Destroyed => 0
  }

  lemma WorkDrops(s: State, freer: nat, a: Action)
    requires Inv(s) && Enabled(s, freer, a)
    ensures 0 <= Work(Do(s, freer, a)) < Work(s)
  {
    hide Tally, Inv;
    Ranges(s);
    match a {
      case DoReset =>
      case DoFreePost =>
      case DoFreeWait =>
      case _ => PartyWork(s, freer, a);
    }
  }

  lemma PartyWork(s: State, freer: nat, a: Action)
    requires InRanges(s) && Enabled(s, freer, a) && !a.DoReset? && !a.DoFreePost? && !a.DoFreeWait?
    ensures Do(s, freer, a).free == s.free && |Do(s, freer, a).pcs| == |s.pcs|
    ensures Tally(|s.pcs|, KWork, Do(s, freer, a).pcs) < Tally(|s.pcs|, KWork, s.pcs)
  {
    hide Tally, Weight, Enabled, InRanges;
    WeightDrops(s, freer, a);
    TallyUpdate(|s.pcs|, KWork, s.pcs, a.t, Do(s, freer, a).pcs[a.t]);
  }

  lemma WeightDrops(s: State, freer: nat, a: Action)
    requires InRanges(s) && Enabled(s, freer, a) && !a.DoReset? && !a.DoFreePost? && !a.DoFreeWait?
    ensures var s', n := Do(s, freer, a), |s.pcs|;
            && a.t < n && s'.free == s.free && s'.pcs == s.pcs[a.t := s'.pcs[a.t]]
            && Weight(n, KWork, s'.pcs[a.t]) < Weight(n, KWork, s.pcs[a.t])
  {
  }

  /** No loop of posts goes too far. */
  ghost predicate InRanges(s: State) {
    && |s.pcs| > 0 && s.f.parties == |s.pcs| && (s.free.FreePosting? ==> s.free.i <= |s.pcs| - 1)
    && forall t :: 0 <= t < |s.pcs| && s.pcs[t].Posting? ==> s.pcs[t].i <= |s.pcs| - 1
  }

  lemma Ranges(s: State)
    requires Inv(s)
    ensures InRanges(s)
  {
  }

  lemma {:induction false} RunIsShort(s: State, freer: nat, run: seq<Action>)
    requires Inv(s) && IsRun(s, freer, run) && 0 <= Work(s)
    ensures |run| <= Work(s)
    decreases |run|
  {
    if run != [] {
      InvStep(s, freer, run[0]);
      WorkDrops(s, freer, run[0]);
      RunIsShort(Do(s, freer, run[0]), freer, run[1..]);
    }
  }

  /** A state in which nothing can happen, but for the optional call of free, has
      everybody out: nobody waits for ever, and a free that was called is done. */
  lemma StuckOnlyAtEnd(s: State, freer: nat)
    requires Inv(s) && freer < |s.pcs|
    requires forall a :: a != DoReset ==> !Enabled(s, freer, a)
    ensures (s.free == NotCalled || s.free == Destroyed) && s.zeroed == 1
    ensures forall t :: 0 <= t < |s.pcs| ==> s.pcs[t] == Out
  {
    var n := |s.pcs|;
    forall t | 0 <= t < n
      ensures s.pcs[t] == Waiting || s.pcs[t] == Out
    {
      assert !Enabled(s, freer, DoEnter(t)) && !Enabled(s, freer, DoCheck(t)) && !Enabled(s, freer, DoPost(t))
        && !Enabled(s, freer, DoLeave(t)) && !Enabled(s, freer, DoHarm(t));
    }
    OnlyWaiting(n, s.pcs);
    if Tally(n, KWaiting, s.pcs) > 0 {
      SomeWaits(n, s.pcs);
      var t :| 0 <= t < n && s.pcs[t] == Waiting;
      assert Enabled(s, freer, DoPass(t));
    }
    forall t | 0 <= t < n
      ensures s.pcs[t] == Out
    {
      TallyUpdate(n, KWaiting, s.pcs, t, Out);
    }
    assert !Enabled(s, freer, DoFreePost) && !Enabled(s, freer, DoFreeWait);
  }

  lemma {:induction false} OnlyWaiting(n: nat, pcs: seq<Pc>)
    requires forall t :: 0 <= t < |pcs| ==> pcs[t] == Waiting || pcs[t] == Out
    ensures Tally(n, KBefore, pcs) == Tally(n, KInside, pcs) == Tally(n, KHarm, pcs) == Tally(n, KOwed, pcs) == 0
  {
    if pcs != [] {
      OnlyWaiting(n, pcs[1..]);
    }
  }

  lemma {:induction false} SomeWaits(n: nat, pcs: seq<Pc>)
    requires Tally(n, KWaiting, pcs) > 0
    ensures exists t :: 0 <= t < |pcs| && pcs[t] == Waiting
  {
    if pcs[0] != Waiting {
      SomeWaits(n, pcs[1..]);
      var t :| 0 <= t < |pcs[1..]| && pcs[1..][t] == Waiting;
      assert pcs[t + 1] == Waiting;
    }
  }

  /** Every run is finite, with an explicit bound.  A run that cannot go on has
      released every party, inAwait came back to zero exactly once, and the barrier
      is destroyed if free was called. */
  lemma BarrierLive(n: nat, freer: nat, run: seq<Action>)
    requires n > 0 && freer < n && IsRun(Start(n), freer, run)
    ensures |run| <= n * (n + 5) + n + 3
    ensures var s := After(Start(n), freer, run);
            (forall a :: a != DoReset ==> !Enabled(s, freer, a)) ==>
              && (s.free == NotCalled || s.free == Destroyed) && s.zeroed == 1
              && forall t :: 0 <= t < |s.pcs| ==> s.pcs[t] == Out
  {
    hide Inv;
    StartInv(n);
    TallySame(n, KWork, n);
    RunIsShort(Start(n), freer, run);
    RunInv(Start(n), freer, run);
    var s := After(Start(n), freer, run);
    if forall a :: a != DoReset ==> !Enabled(s, freer, a) {
      StuckOnlyAtEnd(s, freer);
    }
  }

  // ----- the objects under a schedule -----

  /** The barrier with its two semaphores, and where the parties are in their calls. */
  class Machine {
    const barrier: Barrier
    var blocked: nat
    var harm: nat
    var pcs: seq<Pc>
    var free: FreePc

    constructor (n: nat)
      ensures Shows(Start(n)) && fresh(barrier)
    {
      barrier := new Barrier(n);
      blocked, harm := 0, 0;
      pcs := seq(n, _ => Before);
      free := NotCalled;
    }

    /** The objects are in a state of the runs. */
    ghost predicate Shows(s: State)
      reads this, barrier
    {
      && barrier.Valid() && barrier.Get() == s.f
      && blocked == s.blocked && harm == s.harm && pcs == s.pcs && free == s.free
    }

    /** A step of a party in await. */
    method Await(a: Action, ghost s: State, ghost freer: nat)
      requires Shows(s) && Enabled(s, freer, a) && !a.DoReset? && !a.DoFreePost? && !a.DoFreeWait?
      modifies this, barrier
      ensures Shows(Do(s, freer, a))
    {
      match a {
        case DoEnter(t) =>
          var finished := barrier.EnterRegion();
          pcs := pcs[t := if finished then Finishing else Waiting];
        case DoPass(t) =>
          blocked := blocked - 1;
          pcs := pcs[t := Leaving];
        case DoCheck(t) => pcs := pcs[t := if barrier.isBroken then Leaving else Posting(0)];
        case DoPost(t) =>
          if pcs[t].i < barrier.parties - 1 {
            blocked := blocked + 1;
            pcs := pcs[t := Posting(pcs[t].i + 1)];
          } else {
            pcs := pcs[t := Leaving];
          }
        case DoLeave(t) =>
          var inHarmsWay := barrier.LeaveRegion();
          pcs := pcs[t := if inHarmsWay then InHarmsWay else Out];
        case DoHarm(t) =>
          harm := harm + 1;
          pcs := pcs[t := Out];
      }
    }

    /** A step of the call of free. */
    method Free(a: Action, ghost s: State, ghost freer: nat)
      requires Shows(s) && Enabled(s, freer, a) && (a.DoReset? || a.DoFreePost? || a.DoFreeWait?)
      modifies this, barrier
      ensures Shows(Do(s, freer, a))
    {
      match a {
        case DoReset =>
          barrier.ResetRegion();
          free := FreePosting(0);
        case DoFreePost =>
          if free.i < barrier.parties - 1 {
            blocked := blocked + 1;
            free := FreePosting(free.i + 1);
          } else {
            free := AwaitingAll;
          }
        case DoFreeWait =>
          harm := harm - 1;
          free := Destroyed;
      }
    }
  }

  /** Every schedule on the objects: nobody is past the barrier while a party has not
      entered, and a destroyed barrier has nobody inside; the counters of the object
      say how many have entered and left. */
  method Execute(n: nat, freer: nat, run: seq<Action>) returns (m: Machine)
    requires n > 0 && IsRun(Start(n), freer, run)
    ensures m.Shows(After(Start(n), freer, run)) && |m.pcs| == n
    ensures (exists t :: 0 <= t < n && m.pcs[t] == Before) ==>
              forall t :: 0 <= t < n ==> m.pcs[t] == Before || m.pcs[t] == Waiting
    ensures m.free == Destroyed ==> forall t :: 0 <= t < n ==> m.pcs[t] == Out
  {
    hide Enabled, Do, Start;
    m := new Machine(n);
    ghost var s := Start(n);
    ghost var end := After(s, freer, run);
    var i := 0;
    assert run[0..] == run;
    while i < |run|
      invariant i <= |run| && IsRun(s, freer, run[i..]) && After(s, freer, run[i..]) == end
      invariant fresh(m) && fresh(m.barrier) && m.Shows(s)
    {
      assert run[i..][1..] == run[i + 1..];
      if run[i].DoReset? || run[i].DoFreePost? || run[i].DoFreeWait? {
        m.Free(run[i], s, freer);
      } else {
        m.Await(run[i], s, freer);
      }
      s := Do(s, freer, run[i]);
      i := i + 1;
    }
    assert run[i..] == [];
    BarrierSafe(n, freer, run);
  }
}
