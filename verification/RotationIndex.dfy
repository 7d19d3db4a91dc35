/**
 The static rotation index of select_pool is not touched when pools come and go.  Removals keep it inside
 the allocated slots, but adding a pool afterwards reallocates the array to fit the live pools only.
 */
module RotationIndex {
  import opened PoolManager
  import opened UsageRescale
  import Priorities
  import QuotaGcd
  import QuotaScheduler

  // A probe that picks a pool leaves the index on it.
  lemma {:induction false} ProbeStopsAtPick(s: QuotaScheduler.Sched, quota: seq<nat>, usable: seq<bool>, left: nat)
    requires s.Valid(|quota|) && |usable| == |quota|
    ensures var (t, pick) := QuotaScheduler.Probe(s, quota, usable, left); pick.Some? ==> t.rot == pick.value
    decreases left
  {
    if left > 0 {
      var n := |quota|;
      var charged := s.used[s.rot := s.used[s.rot] + 1];
      ProbeStopsAtPick(QuotaScheduler.Sched(charged, QuotaScheduler.Next(s.rot, n)), quota, usable, left - 1);
    }
  }

  // When only pool `k` has quota left and it is usable, a call ends with the index on it.
  lemma CallEndsOn(s: QuotaScheduler.Sched, quota: seq<nat>, usable: seq<bool>, k: nat)
    requires s.Valid(|quota|) && |usable| == |quota| && k < |quota|
    requires usable[k] && s.used[k] < quota[k]
    requires forall i | 0 <= i < |quota| && i != k :: s.used[i] >= quota[i]
    ensures QuotaScheduler.Call(s, quota, usable).next.rot == k
  {
    QuotaScheduler.ProbeEffect(s, quota, usable, |quota|);
    ProbeStopsAtPick(s, quota, usable, |quota|);
    hide QuotaScheduler.Probe;
  }

  // A table of `n` new pools.
  method NewTable(n: nat) returns (m: Manager)
    ensures fresh(m) && m.Valid() && m.totalPools == |m.pools| == n && m.rotatingPool == 0
    ensures m.strategy == POOL_LOADBALANCE
    ensures fresh(m.pools) && forall i | 0 <= i < n :: m.pools[i].quotaUsed == 0
  {
    m := new Manager(POOL_LOADBALANCE);
    hide Rescale, QuotaGcd.Adjusted, QuotaGcd.PerRound, Numbered, Priorities.IsPerm, PriosOf, LeftOversUnusable,
         QuotasOf;
    for i := 0 to n
      invariant m.Valid() && m.totalPools == |m.pools| == i && m.rotatingPool == 0 && m.strategy == POOL_LOADBALANCE
      invariant fresh(m.pools) && forall j | 0 <= j < i :: m.pools[j].quotaUsed == 0
    {
      ghost var g := m.globalQuotaGcd;
      var pool := m.AddPool();
      ZeroStaysZero(g, m.globalQuotaGcd);
      assert m.pools[i] == pool;
    }
  }

  // Of five pools only the last has a quota and can be used.
  method OnlyLastHasQuota(m: Manager, last: Pool)
    requires m.Valid() && m.totalPools == |m.pools| == 5 && m.pools[4] == last
    modifies m.pools`quota, last`idle, last`enabled, last`hasStratum
    ensures m.Valid() && !last.Unusable() && last.quota == 1
    ensures forall j | 0 <= j < 4 :: m.pools[j].quota == 0
  {
    hide Numbered, Priorities.IsPerm, PriosOf;
    m.LiveFacts();
    for i := 0 to 4
      invariant m.Valid() && forall j | 0 <= j < i :: m.pools[j].quota == 0
    {
      m.pools[i].quota := 0;
    }
    last.quota := 1;
    last.idle, last.enabled, last.hasStratum := false, POOL_ENABLED, false;
  }

  lemma NothingPerRound(g: nat)
    requires g > 0
    ensures QuotaGcd.PerRound(0, g) == 0
  {
  }

  // So the shares leave only the last pool to the rotation.
  method ShareOut(m: Manager)
    requires m.Valid() && m.totalPools == |m.pools| == 5 && m.pools[4].quota == 1
    requires forall j | 0 <= j < 5 :: m.pools[j].quotaUsed == 0
    requires forall j | 0 <= j < 4 :: m.pools[j].quota == 0
    modifies m`globalQuotaGcd, m.pools`quotaGcd, m.pools`quotaUsed
    ensures m.Valid() && m.pools[4].quotaGcd > 0
    ensures forall j | 0 <= j < 5 :: m.pools[j].quotaUsed == 0
    ensures forall j | 0 <= j < 4 :: m.pools[j].quotaGcd == 0
  {
    hide Rescale, Numbered, Priorities.IsPerm, PriosOf, QuotaGcd.Adjusted, QuotaGcd.PerRound;
    ghost var g := m.globalQuotaGcd;
    ghost var quotas := QuotasOf(m.LivePools());
    assert m.LivePools() == m.pools && quotas[4] == 1;
    m.AdjustQuotaGcd();
    ZeroStaysZero(g, m.globalQuotaGcd);
    NothingPerRound(m.globalQuotaGcd);
    QuotaGcd.SharesBounded(quotas, 1, 4);
    assert quotas == QuotasOf(m.LivePools());
  }

  // A selection picks the fifth of five pools when it is the only one with quota left.
  method SelectFifth(m: Manager)
    requires m.Valid() && m.CurrentLive() && m.totalPools == |m.pools| == 5 && m.rotatingPool == 0
    requires m.strategy == POOL_LOADBALANCE && !m.pools[4].Unusable() && m.pools[4].quotaUsed < m.pools[4].quotaGcd
    requires forall j | 0 <= j < 4 :: m.pools[j].quotaUsed >= m.pools[j].quotaGcd
    modifies m`rotatingPool, m.pools`quotaUsed, m.pools`shares
    ensures m.Valid() && m.rotatingPool == 4
  {
    assert m.LivePools() == m.pools;
    ghost var used, quota, usable := UsedOf(m.pools), SharesOf(m.pools), UsablesOf(m.pools);
    CallEndsOn(QuotaScheduler.Sched(used, 0), quota, usable, 4);
    hide Numbered, Priorities.IsPerm, PriosOf, QuotaScheduler.Call, UsedOf, SharesOf, UsablesOf,
         QuotaScheduler.Exhausted;
    assert m.QuotaOutcome().next.rot == 4;
    var pool, found, pick, before := m.SelectPool();
  }

  // Five pools, the last of them selected by quota.
  method FifthSelected() returns (m: Manager)
    ensures fresh(m) && fresh(m.pools) && m.Valid() && m.CurrentLive()
    ensures m.totalPools == |m.pools| == 5 && m.rotatingPool == 4 && m.current == m.pools[0]
  {
    hide Numbered, Priorities.IsPerm, PriosOf;
    m := NewTable(5);
    OnlyLastHasQuota(m, m.pools[4]);
    ShareOut(m);
    m.current := m.pools[0];
    assert m.LivePools()[0] == m.current;
    SelectFifth(m);
  }

  // A removal gives no slot back.
  method RemoveSecond(m: Manager)
    requires m.Valid() && m.CurrentLive() && m.totalPools > 1 && m.current == m.pools[0]
    modifies m`pools, m`totalPools, m`current, m.pools
    ensures m.Valid() && m.CurrentLive() && m.totalPools == old(m.totalPools) - 1 && |m.pools| == old(|m.pools|)
    ensures m.current == m.pools[0] && forall i | 0 <= i < |m.pools| :: m.pools[i] in old(m.pools)
  {
    hide Numbered, Priorities.IsPerm, PriosOf, Settled, Priorities.Remove, LeftOversUnusable;
    m.LiveFacts();
    assert m.LivePools()[0] != m.LivePools()[1];
    var reply, next := m.RemoveCommand(1);
  }

  // Three removals leave the index behind the live pools but still on an allocated slot.
  method ThreeRemovals() returns (m: Manager)
    ensures fresh(m) && fresh(m.pools) && m.Valid() && m.CurrentLive()
    ensures m.totalPools == 2 && |m.pools| == 5 && m.rotatingPool == 4
  {
    hide Numbered, Priorities.IsPerm, PriosOf;
    m := FifthSelected();
    for i := 0 to 3
      invariant m.Valid() && m.CurrentLive() && m.totalPools == 5 - i && |m.pools| == 5
      invariant m.rotatingPool == 4 && m.current == m.pools[0] && fresh(m.pools)
    {
      RemoveSecond(m);
    }
  }

  // Adding a pool then leaves it on no slot at all, and the new pool has quota left, so the next selection
  // does not reset it first.
  method RemovalsThenAdd() returns (m: Manager)
    ensures fresh(m) && m.Valid() && m.CurrentLive()
    ensures m.totalPools == 3 && m.rotatingPool == |m.pools| == 4 && !m.InReach()
  {
    hide Rescale, Numbered, Priorities.IsPerm, PriosOf, LeftOversUnusable, QuotaGcd.Adjusted, QuotaGcd.PerRound;
    m := ThreeRemovals();
    var pool := m.AddPool();
    NewcomerHasQuota(m, pool);
  }

  lemma NewcomerHasQuota(m: Manager, pool: Pool)
    requires m.totalPools == 3 <= |m.pools| && m.pools[2] == pool && pool.quota == 1 && pool.quotaUsed == 0
    requires m.globalQuotaGcd == QuotaGcd.Adjusted(QuotasOf(m.LivePools()))
    requires pool.quotaGcd == QuotaGcd.PerRound(1, m.globalQuotaGcd)
    ensures !QuotaScheduler.Exhausted(UsedOf(m.LivePools()), SharesOf(m.LivePools()))
  {
    var quotas := QuotasOf(m.LivePools());
    hide QuotaGcd.Adjusted, QuotaGcd.PerRound;
    QuotaGcd.SharesBounded(quotas, 1, 2);
    assert UsedOf(m.LivePools())[2] == 0 < SharesOf(m.LivePools())[2];
  }
}
