/**
 Whole rounds of select_pool under load balance while every pool can be used: each pool is returned exactly as
 often as its share says, round after round.
 */
module FairRound {
  import opened Common
  import opened PoolManager
  import Priorities
  import opened QuotaScheduler

  // What the scheduler sees of the pool table.
  ghost function StateOf(m: Manager): Sched
    requires m.totalPools <= |m.pools|
    reads m, m.pools`quotaUsed
  {
    Sched(UsedOf(m.LivePools()), m.rotatingPool)
  }

  ghost function SharesIn(m: Manager): (g: seq<nat>)
    requires m.totalPools <= |m.pools|
    reads m, m.pools`quotaGcd
    ensures |g| == m.totalPools
  {
    SharesOf(m.LivePools())
  }

  // A table under load balance with every live pool usable.
  ghost predicate Steady(m: Manager)
    reads m, m.pools
  {
    && m.Valid() && m.CurrentLive() && m.strategy == POOL_LOADBALANCE && m.rotatingPool < m.totalPools
    && forall i | 0 <= i < m.totalPools :: !m.pools[i].Unusable()
  }

  // The next call begins a round: the counters are clean, or they are about to be reset.
  ghost predicate AtRoundStart(m: Manager)
    requires m.totalPools <= |m.pools| && m.rotatingPool < m.totalPools
    reads m, m.pools`quotaUsed, m.pools`quotaGcd
  {
    Begin(StateOf(m), SharesIn(m)).used == Zeros(m.totalPools)
  }

  lemma HandsOut(s: Sched, quota: seq<nat>)
    requires s.Valid(|quota|) && !Exhausted(Begin(s, quota).used, quota)
    ensures Call(s, quota, AllUsable(|quota|)).pick.Some?
  {
    CallAllUsable(Begin(s, quota), quota, AllUsable(|quota|));
  }

  lemma SteadyOutcome(m: Manager)
    requires Steady(m)
    ensures m.QuotaOutcome() == Call(StateOf(m), SharesIn(m), AllUsable(m.totalPools))
    ensures m.InReach() && StateOf(m).Valid(m.totalPools)
  {
    hide Call;
    assert UsablesOf(m.LivePools()) == AllUsable(m.totalPools);
  }

  // One call of select_pool is one call of the scheduler with every pool usable.
  method SelectOne(m: Manager) returns (i: nat)
    requires Steady(m) && !Exhausted(Begin(StateOf(m), SharesIn(m)).used, SharesIn(m))
    modifies m`rotatingPool, m.pools`quotaUsed, m.pools`shares
    ensures Steady(m) && SharesIn(m) == old(SharesIn(m)) && i < m.totalPools
    ensures var o := Call(old(StateOf(m)), SharesIn(m), AllUsable(m.totalPools));
      StateOf(m) == o.next && o.pick == Some(i)
  {
    hide Call, Begin, Exhausted, UsedOf, SharesOf, UsablesOf, Priorities.IsPerm, PriosOf, m.FailsOver, FoundByQuota;
    SteadyOutcome(m);
    HandsOut(StateOf(m), SharesIn(m));
    var pool, found, pick, before := m.SelectPool();
    i := pool.poolNo;
  }

  // From the start of a round `s` is where k calls have led.
  ghost predicate After(s0: Sched, quota: seq<nat>, k: nat, s: Sched, picks: seq<nat>)
    requires s0.Valid(|quota|)
  {
    && picks == Calls(Begin(s0, quota), quota, k).1
    && if k == 0 then s == s0 else s == Calls(Begin(s0, quota), quota, k).0
  }

  // The first call may still have to reset the counters, which makes no difference to what it does.
  lemma AfterOneMore(s0: Sched, quota: seq<nat>, k: nat, s: Sched, picks: seq<nat>)
    requires s0.Valid(|quota|) && Begin(s0, quota).used == Zeros(|quota|)
    requires k < Sum(quota) && After(s0, quota, k, s, picks)
    ensures s.Valid(|quota|) && |picks| == |quota| && !Exhausted(Begin(s, quota).used, quota)
    ensures var o := Call(s, quota, AllUsable(|quota|));
      After(s0, quota, k + 1, o.next, Bump(picks, o.pick))
  {
    hide Probe, Remaining;
    var clean := Begin(s0, quota);
    ExactRound(clean, quota, k);
    ExactRound(clean, quota, 0);
  }

  // It goes to the pool the index stands on or to one further on.
  lemma OneMoreInOrder(s0: Sched, quota: seq<nat>, k: nat, s: Sched, picks: seq<nat>, first: nat)
    requires s0.Valid(|quota|) && Begin(s0, quota).used == Zeros(|quota|) && first == Begin(s0, quota).rot
    requires k < Sum(quota) && After(s0, quota, k, s, picks) && s.Valid(|quota|)
    ensures var o, n := Call(s, quota, AllUsable(|quota|)), |quota|;
      && o.pick == Some(o.next.rot)
      && (k > 0 ==> Distance(first, s.rot, n) <= Distance(first, o.next.rot, n))
  {
    hide Probe, Begin, Remaining;
    RoundInOrder(Begin(s0, quota), quota, k);
    CallTests(s, quota, AllUsable(|quota|));
    PickOfOneMore(s0, quota, k, s, picks);
  }

  lemma PickOfOneMore(s0: Sched, quota: seq<nat>, k: nat, s: Sched, picks: seq<nat>)
    requires s0.Valid(|quota|) && Begin(s0, quota).used == Zeros(|quota|)
    requires k < Sum(quota) && After(s0, quota, k, s, picks) && s.Valid(|quota|)
    ensures var t := Calls(Begin(s0, quota), quota, k).0;
      Call(s, quota, AllUsable(|quota|)).next == Call(t, quota, AllUsable(|quota|)).next
    ensures Call(s, quota, AllUsable(|quota|)).pick.Some?
  {
    hide Probe, Remaining;
    AfterOneMore(s0, quota, k, s, picks);
    HandsOut(s, quota);
    ExactRound(Begin(s0, quota), quota, 0);
  }

  lemma RoundOver(s0: Sched, quota: seq<nat>, s: Sched, picks: seq<nat>)
    requires s0.Valid(|quota|) && Begin(s0, quota).used == Zeros(|quota|)
    requires After(s0, quota, Sum(quota), s, picks)
    ensures picks == quota && s.Valid(|quota|) && Exhausted(s.used, quota)
  {
    hide Probe, Remaining;
    var clean := Begin(s0, quota);
    ExactRound(clean, quota, Sum(quota));
    if Sum(quota) == 0 {
      ExhaustedIsNoneLeft(s0.used, quota);
      FreshRemaining(quota);
    }
  }

  lemma RoundBegins(m: Manager)
    requires Steady(m) && AtRoundStart(m)
    ensures m.rotatingPool < m.totalPools <= |m.pools|
    ensures var rot := m.rotatingPool;
      Begin(StateOf(m), SharesIn(m)).rot ==
        if !NoneLeft(m.LivePools()) then rot else if rot + 1 < m.totalPools then rot + 1 else 0
    ensures var s, quota := StateOf(m), SharesIn(m);
      && s.Valid(|quota|) && Begin(s, quota).used == Zeros(|quota|)
      && After(s, quota, 0, s, NoPicks(|quota|))
  {
  }

  lemma NextRoundBegins(m: Manager)
    requires Steady(m) && Exhausted(StateOf(m).used, SharesIn(m))
    ensures AtRoundStart(m)
  {
  }

  lemma ShareOf(m: Manager, i: nat)
    requires m.totalPools <= |m.pools| && i < m.totalPools
    ensures SharesIn(m)[i] == m.pools[i].quotaGcd
  {
  }

  // As many calls as the shares add up to return every pool exactly as often as its share, in the order of the
  // slots from where the round begins, and the call after them begins the next round. A round begins where the
  // index stands, or one slot further on when the counters are not clean.
  method Round(m: Manager, total: nat) returns (counts: seq<nat>, slots: seq<nat>)
    requires Steady(m) && AtRoundStart(m) && total == Sum(SharesIn(m))
    modifies m`rotatingPool, m.pools`quotaUsed, m.pools`shares
    ensures Steady(m) && AtRoundStart(m) && SharesIn(m) == old(SharesIn(m))
    ensures |counts| == m.totalPools && forall i | 0 <= i < m.totalPools :: counts[i] == m.pools[i].quotaGcd
    ensures Exhausted(StateOf(m).used, SharesIn(m))
    ensures |slots| == total && forall k | 0 <= k < total :: slots[k] < m.totalPools
    ensures var n, rot := m.totalPools, old(m.rotatingPool);
      var first := if !old(NoneLeft(m.LivePools())) then rot else if rot + 1 < n then rot + 1 else 0;
      forall j, k | 0 <= j < k < total :: Distance(first, slots[j], n) <= Distance(first, slots[k], n)
  {
    hide Call, Begin, Exhausted, After, StateOf, SharesIn, AtRoundStart, Steady;
    RoundBegins(m);
    ghost var s0, quota := StateOf(m), SharesIn(m);
    ghost var first := Begin(s0, quota).rot;
    counts, slots := NoPicks(m.totalPools), [];
    for k := 0 to total
      invariant Steady(m) && SharesIn(m) == quota && m.totalPools == |quota|
      invariant After(s0, quota, k, StateOf(m), counts)
      invariant |slots| == k && forall j | 0 <= j < k :: slots[j] < |quota|
      invariant k > 0 ==> slots[k - 1] == StateOf(m).rot
      invariant forall i, j | 0 <= i < j < k :: Distance(first, slots[i], |quota|) <= Distance(first, slots[j], |quota|)
    {
      AfterOneMore(s0, quota, k, StateOf(m), counts);
      OneMoreInOrder(s0, quota, k, StateOf(m), counts, first);
      var i := SelectOne(m);
      slots := slots + [i];
      counts := counts[i := counts[i] + 1];
    }
    RoundOver(s0, quota, StateOf(m), counts);
    NextRoundBegins(m);
    forall i | 0 <= i < m.totalPools ensures counts[i] == m.pools[i].quotaGcd {
      ShareOf(m, i);
    }
  }
}
