/**
 The pool table of cgminer.c and the API commands of api.c that reorder it.  `pools` holds a pointer per
 allocated slot, of which the first `totalPools` are live; what is behind them is left over from removals.
 */
module PoolManager {
  import opened Common
  import opened Priorities
  import PoolRotation
  import QuotaGcd
  import QuotaScheduler
  import opened UsageRescale

  datatype PoolEnable = POOL_DISABLED | POOL_ENABLED | POOL_REJECTING

  datatype Strategy = POOL_FAILOVER | POOL_ROUNDROBIN | POOL_ROTATE | POOL_LOADBALANCE | POOL_BALANCE

  class Pool {
    var poolNo: int
    var prio: int
    var quota: nat
    var quotaGcd: nat
    var quotaUsed: int
    var shares: int
    var idle: bool
    var enabled: PoolEnable
    var hasStratum: bool
    var stratumActive: bool
    var stratumNotify: bool
    var removed: bool

    constructor (number: nat)
      ensures poolNo == number && prio == number
      ensures quota == 1 && quotaGcd == 0 && quotaUsed == 0 && !removed
    {
      poolNo, prio := number, number;
      quota, quotaGcd, quotaUsed, shares := 1, 0, 0, 0;
      idle, enabled, removed := false, POOL_DISABLED, false;
      hasStratum, stratumActive, stratumNotify := false, false, false;
    }

    predicate Unusable()
      reads `idle, `enabled, `hasStratum, `stratumActive, `stratumNotify
    {
      idle || enabled != POOL_ENABLED || (hasStratum && (!stratumActive || !stratumNotify))
    }

    // What a pool that can be used must be.
    lemma UsableMeans()
      ensures !Unusable() <==> !idle && enabled.POOL_ENABLED? && (hasStratum ==> stratumActive && stratumNotify)
    {
    }
  }

  function PriosOf(live: seq<Pool>): (p: seq<int>)
    reads live`prio
    ensures |p| == |live| && forall i | 0 <= i < |live| :: p[i] == live[i].prio
  {
    if live == [] then [] else PriosOf(live[..|live| - 1]) + [live[|live| - 1].prio]
  }

  ghost predicate HasPrios(live: seq<Pool>, p: seq<int>)
    reads live`prio
  {
    |p| == |live| && forall i | 0 <= i < |live| :: live[i].prio == p[i]
  }

  ghost predicate Numbered(live: seq<Pool>)
    reads live`poolNo
  {
    forall i | 0 <= i < |live| :: live[i].poolNo == i
  }

  // The loop of switch_pools that makes the pool in slot `s` the first one.
  method PromoteSelected(live: seq<Pool>, s: nat, ghost p: seq<int>)
    requires Distinct(live) && HasPrios(live, p) && s < |live|
    requires forall i | 0 <= i < |p| :: p[i] >= 0
    modifies live`prio
    ensures HasPrios(live, Promote(p, s))
  {
    var selected := live[s];
    if selected.prio != 0 {
      var i := 0;
      while i < |live|
        invariant 0 <= i <= |live|
        invariant forall j | 0 <= j < i :: live[j].prio == if p[j] < p[s] then p[j] + 1 else p[j]
        invariant forall j | i <= j < |live| :: live[j].prio == p[j]
      {
        var pool := live[i];
        assert selected.prio == p[s];
        if pool.prio < selected.prio {
          pool.prio := pool.prio + 1;
        }
        i := i + 1;
      }
      selected.prio := 0;
    }
  }

  // The loop of remove_pool over the priorities.
  method CloseGap(live: seq<Pool>, k: nat, ghost p: seq<int>)
    requires Distinct(live) && HasPrios(live, p) && k < |live|
    modifies live`prio
    ensures forall i | 0 <= i < |live| :: live[i].prio == if p[i] > p[k] then p[i] - 1 else p[i]
  {
    var pool := live[k];
    var i := 0;
    while i < |live|
      invariant 0 <= i <= |live|
      invariant forall j | 0 <= j < i :: live[j].prio == if p[j] > p[k] then p[j] - 1 else p[j]
      invariant forall j | i <= j < |live| :: live[j].prio == p[j]
    {
      var other := live[i];
      assert pool.prio == p[k];
      if other.prio > pool.prio {
        other.prio := other.prio - 1;
      }
      i := i + 1;
    }
  }

  // priority_pool: the live pool with priority `choice`.
  method PriorityPool(live: seq<Pool>, choice: nat, ghost p: seq<int>) returns (i: nat)
    requires HasPrios(live, p) && IsPerm(p) && choice < |live|
    ensures i < |live| && p[i] == choice
  {
    PermHits(p, choice);
    i := 0;
    while i < |live|
      invariant 0 <= i <= |live|
      invariant forall j | 0 <= j < i :: p[j] != choice
    {
      if live[i].prio == choice {
        return;
      }
      i := i + 1;
    }
  }

  // The usable pool of least priority number, tried in order; |live| when there is none.
  method FirstUsable(live: seq<Pool>, ghost p: seq<int>) returns (best: nat)
    requires HasPrios(live, p) && IsPerm(p)
    ensures IsFirstUsable(live, p, best)
  {
    var i := 0;
    while i < |live|
      invariant 0 <= i <= |live|
      invariant forall j | 0 <= j < |live| && p[j] < i :: live[j].Unusable()
    {
      var k := PriorityPool(live, i, p);
      if !live[k].Unusable() {
        assert forall j | 0 <= j < |live| && p[j] == p[k] :: j == k;
        return k;
      }
      assert forall j | 0 <= j < |live| && p[j] == p[k] :: j == k;
      i := i + 1;
    }
    best := |live|;
  }

  ghost predicate IsFirstUsable(live: seq<Pool>, p: seq<int>, best: nat)
    requires |p| == |live|
    reads live
  {
    if best < |live| then
      !live[best].Unusable() && forall j | 0 <= j < |live| && !live[j].Unusable() :: p[best] <= p[j]
    else
      best == |live| && forall j | 0 <= j < |live| :: live[j].Unusable()
  }

  function UsablesOf(live: seq<Pool>): (u: seq<bool>)
    reads live`idle, live`enabled, live`hasStratum, live`stratumActive, live`stratumNotify
    ensures |u| == |live| && forall i | 0 <= i < |live| :: u[i] == !live[i].Unusable()
  {
    if live == [] then [] else UsablesOf(live[..|live| - 1]) + [!live[|live| - 1].Unusable()]
  }

  // The increment-and-wrap loop over the other pools.
  method NextUsable(live: seq<Pool>, c: nat) returns (poolNo: nat)
    requires c < |live|
    ensures poolNo < |live| && poolNo == PoolRotation.NextPool(UsablesOf(live), c)
  {
    ghost var u := UsablesOf(live);
    var next := c;
    var i := 1;
    while i < |live|
      invariant 1 <= i <= |live| && next < |live|
      invariant next == PoolRotation.At(c, i - 1, |live|)
      invariant PoolRotation.NextPool(u, c) == PoolRotation.NextFrom(u, c, i)
    {
      next := next + 1;
      if next >= |live| {
        next := 0;
      }
      assert next == PoolRotation.At(c, i, |live|);
      if !live[next].Unusable() {
        return next;
      }
      i := i + 1;
    }
    return c;
  }

  // Where switch_pools settles when slot `c` was current. Under the rotating strategies that is the selected
  // slot unless its pool is idle, whatever else makes it unusable, and otherwise the next usable slot in cyclic
  // order, or `c` again. Under the others it is the usable slot of least priority, or `c` when there is none.
  ghost predicate Settled(strategy: Strategy, usable: seq<bool>, p: seq<int>, selected: Option<nat>, idle: bool, c: nat,
                          d: nat)
    requires |usable| == |p| && c < |p|
  {
    && d < |p|
    && if strategy == POOL_ROUNDROBIN || strategy == POOL_ROTATE then
         if selected.Some? && !idle then d == selected.value
         else
           && (d != c ==> usable[d])
           && forall i | 0 <= i < |p| && i != c && (if c < d then c < i < d else i > c || i < d) :: !usable[i]
       else if exists i :: 0 <= i < |p| && usable[i] then
         usable[d] && forall i | 0 <= i < |p| && usable[i] :: p[d] <= p[i]
       else d == c
  }

  // Under the other strategies a usable selected pool becomes current too, since it has been made the first.
  lemma FirstSettles(strategy: Strategy, usable: seq<bool>, p: seq<int>, s: nat, idle: bool, c: nat, d: nat)
    requires |usable| == |p| && c < |p| && s < |p| && IsPerm(p) && p[s] == 0 && usable[s]
    requires strategy != POOL_ROUNDROBIN && strategy != POOL_ROTATE
    requires Settled(strategy, usable, p, Some(s), idle, c, d)
    ensures d == s
  {
  }

  // The pool given to switch_pools as its slot.
  ghost function SlotOf(selected: Pool?): Option<nat>
    reads selected
  {
    if selected == null || selected.poolNo < 0 then None else Some(selected.poolNo)
  }

  method ChoosePool(strategy: Strategy, live: seq<Pool>, ghost p: seq<int>, selected: Pool?, c: nat)
      returns (poolNo: nat)
    requires HasPrios(live, p) && IsPerm(p) && c < |live|
    requires selected != null ==> 0 <= selected.poolNo < |live| && live[selected.poolNo] == selected
    ensures Settled(strategy, UsablesOf(live), p, SlotOf(selected), selected != null && selected.idle, c, poolNo)
  {
    match strategy {
      case POOL_BALANCE | POOL_FAILOVER | POOL_LOADBALANCE =>
        var best := FirstUsable(live, p);
        poolNo := if best < |live| then best else c;
      case POOL_ROUNDROBIN | POOL_ROTATE =>
        if selected != null && !selected.idle {
          poolNo := selected.poolNo;
        } else {
          PoolRotation.NextPassesUnusable(UsablesOf(live), c);
          poolNo := NextUsable(live, c);
        }
    }
  }

  datatype RemoveReply = NoPools | UnknownPool | LastPool | StillActive | Removed

  datatype PrioReply = NoPool | MissingIds | InvalidId(id: int) | DuplicateId(id: int) | Reordered

  // The listed pools in front, with the positions the list gives them.
  ghost predicate Listed(changed: seq<bool>, newPrio: seq<int>, ids: seq<int>, n: nat) {
    && |changed| == |newPrio| == n
    && (forall i | 0 <= i < n :: changed[i] <==> i in ids)
    && (forall i | 0 <= i < n && i in ids :: newPrio[i] == Position(ids, i))
  }

  lemma PositionPrefix(ids: seq<int>, id: int, i: int)
    requires i in ids
    ensures i in ids + [id] && Position(ids + [id], i) == Position(ids, i)
  {
    if ids[0] != i {
      assert (ids + [id])[1..] == ids[1..] + [id];
      PositionPrefix(ids[1..], id, i);
    }
  }

  lemma PositionLast(ids: seq<int>, id: int)
    requires id !in ids
    ensures Position(ids + [id], id) == |ids|
  {
    if ids != [] {
      assert (ids + [id])[1..] == ids[1..] + [id];
      PositionLast(ids[1..], id);
    }
  }

  // Entry `k` is the first that is out of range or repeats an earlier one.
  ghost predicate FirstBad(ids: seq<int>, n: nat, k: nat)
    requires k < |ids|
  {
    ValidIds(ids[..k], n) && (!(0 <= ids[k] < n) || ids[k] in ids[..k])
  }

  function Complaint(id: int, n: nat): PrioReply {
    if 0 <= id < n then DuplicateId(id) else InvalidId(id)
  }

  // What the list is refused for: an id out of range, or in range and listed before; nothing before it is bad.
  lemma RefusedFor(ids: seq<int>, n: nat, k: nat)
    requires k < |ids|
    ensures FirstBad(ids, n, k) ==>
      if 0 <= ids[k] < n then Complaint(ids[k], n) == DuplicateId(ids[k]) && exists j :: 0 <= j < k && ids[j] == ids[k]
      else Complaint(ids[k], n) == InvalidId(ids[k])
    ensures FirstBad(ids, n, k) ==> forall i | 0 <= i < k :: 0 <= ids[i] < n
    ensures FirstBad(ids, n, k) ==> forall i, j | 0 <= i < j < k :: ids[i] != ids[j]
    ensures ValidIds(ids, n) <==>
      (forall i | 0 <= i < |ids| :: 0 <= ids[i] < n) && forall i, j | 0 <= i < j < |ids| :: ids[i] != ids[j]
  {
    if FirstBad(ids, n, k) {
      assert forall i | 0 <= i < k :: ids[..k][i] == ids[i];
    }
  }

  // The first loop of poolpriority: nothing but the two local arrays is touched.
  method CheckIds(ids: seq<int>, n: nat, changed: array<bool>, newPrio: array<int>) returns (reply: PrioReply)
    requires changed.Length == newPrio.Length == n && forall i | 0 <= i < n :: !changed[i]
    modifies changed, newPrio
    ensures reply.Reordered? <==> ValidIds(ids, n)
    ensures reply.Reordered? ==> Listed(changed[..], newPrio[..], ids, n)
    ensures !reply.Reordered? ==> exists k :: 0 <= k < |ids| && FirstBad(ids, n, k) && reply == Complaint(ids[k], n)
  {
    var k := 0;
    while k < |ids|
      invariant 0 <= k <= |ids|
      invariant ValidIds(ids[..k], n) && Listed(changed[..], newPrio[..], ids[..k], n)
    {
      var i := ids[k];
      if i < 0 || i >= n {
        assert FirstBad(ids, n, k);
        return InvalidId(i);
      }
      if changed[i] {
        var j :| 0 <= j < k && ids[..k][j] == i;
        assert ids[j] == ids[k] && FirstBad(ids, n, k);
        return DuplicateId(i);
      }
      assert ids[..k + 1] == ids[..k] + [i];
      forall j | 0 <= j < n && j in ids[..k] ensures Position(ids[..k + 1], j) == Position(ids[..k], j) {
        PositionPrefix(ids[..k], i, j);
      }
      PositionLast(ids[..k], i);
      changed[i] := true;
      newPrio[i] := k;
      k := k + 1;
    }
    assert ids[..|ids|] == ids;
    return Reordered;
  }

  // The second loop of poolpriority.
  method PlaceListed(live: seq<Pool>, changed: array<bool>, newPrio: array<int>, ghost p: seq<int>, ghost ids: seq<int>)
    requires Distinct(live) && HasPrios(live, p) && Listed(changed[..], newPrio[..], ids, |p|)
    modifies live`prio
    ensures forall j | 0 <= j < |live| :: live[j].prio == if j in ids then Position(ids, j) else p[j]
  {
    ghost var c, q := changed[..], newPrio[..];
    var i := 0;
    while i < |live|
      invariant 0 <= i <= |live|
      invariant forall j | 0 <= j < |live| ::
        live[j].prio == if j < i && j in ids then Position(ids, j) else p[j]
    {
      assert changed[i] == c[i] && newPrio[i] == q[i];
      if changed[i] {
        live[i].prio := newPrio[i];
      }
      i := i + 1;
    }
  }

  // The pools that are listed, or come before priority `pr`, have their new priority.
  ghost predicate PlacedBelow(live: seq<Pool>, changed: array<bool>, p: seq<int>, ids: seq<int>, q: seq<int>, pr: int)
    reads live, changed
  {
    && changed.Length == |live| == |p| == |q|
    && (forall j | 0 <= j < |live| && (j in ids || p[j] < pr) :: changed[j] && live[j].prio == q[j])
    && (forall j | 0 <= j < |live| && j !in ids && p[j] >= pr :: !changed[j] && live[j].prio == p[j])
  }

  // One turn of the third loop of poolpriority: the unlisted pool of priority `pr`, if any, comes next.
  method AppendNext(live: seq<Pool>, changed: array<bool>, pr: int, prio: int, ghost p: seq<int>,
                    ghost ids: seq<int>, ghost q: seq<int>)
      returns (next: int)
    requires Distinct(live) && |p| == |live| && IsPerm(p) && PlacedBelow(live, changed, p, ids, q, pr)
    requires forall j | 0 <= j < |live| && j !in ids && p[j] == pr :: q[j] == prio
    modifies live`prio, changed
    ensures PlacedBelow(live, changed, p, ids, q, pr + 1)
    ensures next == prio + if exists j :: 0 <= j < |live| && j !in ids && p[j] == pr then 1 else 0
  {
    var k := FindUnchanged(live, changed, pr);
    if k < |live| {
      assert forall j | 0 <= j < |live| && p[j] == pr :: j == k;
      live[k].prio := prio;
      changed[k] := true;
      return prio + 1;
    }
    return prio;
  }

  lemma UnlistedStep(p: seq<int>, ids: seq<int>, pr: int)
    requires IsPerm(p)
    ensures |UnlistedBelow(p, ids, pr + 1)|
      == |UnlistedBelow(p, ids, pr)| + if exists j :: 0 <= j < |p| && j !in ids && p[j] == pr then 1 else 0
  {
    if j :| 0 <= j < |p| && j !in ids && p[j] == pr {
      assert UnlistedBelow(p, ids, pr + 1) == UnlistedBelow(p, ids, pr) + {j};
    } else {
      assert UnlistedBelow(p, ids, pr + 1) == UnlistedBelow(p, ids, pr);
    }
  }

  lemma NoneBelowZero(p: seq<int>, ids: seq<int>)
    requires IsPerm(p)
    ensures |UnlistedBelow(p, ids, 0)| == 0
  {
    assert UnlistedBelow(p, ids, 0) == {};
  }

  lemma AllPlaced(live: seq<Pool>, changed: array<bool>, p: seq<int>, ids: seq<int>, q: seq<int>)
    requires |live| == |p| && IsPerm(p) && PlacedBelow(live, changed, p, ids, q, |p|)
    ensures HasPrios(live, q)
  {
  }

  // The third loop of poolpriority: the others follow in their old order.
  method AppendOthers(live: seq<Pool>, changed: array<bool>, count: nat, ghost p: seq<int>, ghost ids: seq<int>)
    requires Distinct(live) && |p| == |live| && IsPerm(p) && count == |ids|
    requires PlacedBelow(live, changed, p, ids, Reprioritise(p, ids), 0)
    modifies live`prio, changed
    ensures HasPrios(live, Reprioritise(p, ids))
  {
    hide IsPerm, UnlistedBelow, PlacedBelow, Reprioritise, NewPrio, HasPrios, Distinct;
    ghost var q := Reprioritise(p, ids);
    var prio, pr := count, 0;
    NoneBelowZero(p, ids);
    while pr < |live|
      invariant 0 <= pr <= |live|
      invariant prio == |ids| + |UnlistedBelow(p, ids, pr)|
      invariant PlacedBelow(live, changed, p, ids, q, pr)
    {
      UnlistedStep(p, ids, pr);
      UnlistedPrio(p, ids, pr);
      prio := AppendNext(live, changed, pr, prio, p, ids, q);
      pr := pr + 1;
    }
    AllPlaced(live, changed, p, ids, q);
  }

  lemma UnlistedPrio(p: seq<int>, ids: seq<int>, pr: int)
    ensures forall j | 0 <= j < |p| && j !in ids && p[j] == pr ::
      Reprioritise(p, ids)[j] == |ids| + |UnlistedBelow(p, ids, pr)|
  {
  }

  // The inner loop of poolpriority, up to its break.
  method FindUnchanged(live: seq<Pool>, changed: array<bool>, pr: int) returns (k: nat)
    requires changed.Length == |live|
    ensures k <= |live|
    ensures k < |live| ==> !changed[k] && live[k].prio == pr
    ensures forall j | 0 <= j < k :: changed[j] || live[j].prio != pr
  {
    k := 0;
    while k < |live|
      invariant k <= |live|
      invariant forall j | 0 <= j < k :: changed[j] || live[j].prio != pr
    {
      if !changed[k] && live[k].prio == pr {
        return;
      }
      k := k + 1;
    }
  }

  function QuotasOf(live: seq<Pool>): (q: seq<nat>)
    reads live`quota
    ensures |q| == |live| && forall i | 0 <= i < |live| :: q[i] == live[i].quota
  {
    if live == [] then [] else QuotasOf(live[..|live| - 1]) + [live[|live| - 1].quota]
  }

  // The first loop of adjust_quota_gcd.
  method LowestQuota(live: seq<Pool>) returns (lowest: nat)
    ensures lowest == QuotaGcd.Lowest(QuotasOf(live))
  {
    hide QuotaGcd.Lowest, QuotasOf;
    ghost var q := QuotasOf(live);
    lowest := 0;
    var i := 0;
    QuotaGcd.LowestNext(q, 0);
    while i < |live|
      invariant 0 <= i <= |live| && lowest == QuotaGcd.Lowest(q[..i])
    {
      var quota := live[i].quota;
      QuotaGcd.LowestNext(q, i);
      if quota != 0 && (lowest == 0 || quota < lowest) {
        lowest := quota;
      }
      i := i + 1;
    }
    assert q[..|live|] == q;
  }

  // The second loop of adjust_quota_gcd.
  method FindGcd(live: seq<Pool>) returns (gcd: nat)
    ensures gcd == QuotaGcd.Adjusted(QuotasOf(live)) > 0
  {
    hide QuotaGcd.Shrink, QuotaGcd.Lowest, QuotasOf;
    ghost var q := QuotasOf(live);
    gcd := LowestQuota(live);
    if gcd == 0 {
      return 1;
    }
    var i := 0;
    while i < |live|
      invariant 0 <= i <= |live| && gcd == QuotaGcd.ShrinkAll(QuotaGcd.Lowest(q), q[..i]) > 0
    {
      assert q[..i + 1][..i] == q[..i];
      gcd := LowerTo(gcd, live[i].quota);
      i := i + 1;
    }
    assert q[..|live|] == q;
  }

  method LowerTo(g: nat, quota: nat) returns (gcd: nat)
    requires g > 0
    ensures gcd == if quota == 0 then g else QuotaGcd.Shrink(g, quota)
  {
    gcd := g;
    if quota != 0 {
      assert quota % 1 == 0;
      while !QuotaGcd.Divides(gcd, quota)
        invariant 0 < gcd && QuotaGcd.Shrink(gcd, quota) == QuotaGcd.Shrink(g, quota)
        decreases gcd
      {
        gcd := gcd - 1;
      }
    }
  }

  // The last loop of adjust_quota_gcd.
  method ScaleQuotas(live: seq<Pool>, globalGcd: nat, gcd: nat)
    requires Distinct(live) && gcd > 0
    modifies live`quotaUsed, live`quotaGcd
    ensures forall i | 0 <= i < |live| ::
      && live[i].quotaGcd == QuotaGcd.PerRound(live[i].quota, gcd)
      && live[i].quotaUsed == Rescale(old(live[i].quotaUsed), globalGcd, gcd)
  {
    hide Rescale, QuotaGcd.PerRound;
    var i := 0;
    while i < |live|
      invariant 0 <= i <= |live|
      invariant forall j | 0 <= j < i :: live[j].quotaGcd == QuotaGcd.PerRound(live[j].quota, gcd)
      invariant forall j | 0 <= j < i :: live[j].quotaUsed == Rescale(old(live[j].quotaUsed), globalGcd, gcd)
      invariant forall j | i <= j < |live| :: live[j].quotaUsed == old(live[j].quotaUsed)
    {
      var pool := live[i];
      pool.quotaUsed := Rescale(pool.quotaUsed, globalGcd, gcd);
      pool.quotaGcd := QuotaGcd.PerRound(pool.quota, gcd);
      i := i + 1;
    }
  }

  function UsedOf(live: seq<Pool>): (u: seq<int>)
    reads live`quotaUsed
    ensures |u| == |live| && forall i | 0 <= i < |live| :: u[i] == live[i].quotaUsed
  {
    if live == [] then [] else UsedOf(live[..|live| - 1]) + [live[|live| - 1].quotaUsed]
  }

  function SharesOf(live: seq<Pool>): (g: seq<nat>)
    reads live`quotaGcd
    ensures |g| == |live| && forall i | 0 <= i < |live| :: g[i] == live[i].quotaGcd
  {
    if live == [] then [] else SharesOf(live[..|live| - 1]) + [live[|live| - 1].quotaGcd]
  }

  // Which slots a selection tests once it has looked at the counters: `left` live slots from `first` on, whose
  // counters stood at `before`. The index stays on the slot picked, and has moved on when none was.
  ghost predicate SlotsTested(live: seq<Pool>, before: seq<int>, first: nat, left: nat, rot: nat, pick: Option<nat>)
    requires |before| == |live|
    reads live
  {
    && first < |live| && left <= |live|
    && QuotaScheduler.Tests(before, SharesOf(live), UsablesOf(live), first, left, UsedOf(live), pick)
    && rot == if pick.Some? then pick.value else if first + left < |live| then first + left else first + left - |live|
  }

  // The slots behind the live ones keep their counters, save that the pool in slot `tested`, if there is such
  // a slot, is charged.
  ghost predicate OthersKept(slots: seq<Pool>, n: nat, was: seq<int>, tested: nat)
    requires n <= |slots| == |was|
    reads slots
  {
    forall i | n <= i < |slots| && slots[i] !in slots[..n] ::
      slots[i].quotaUsed == was[i] + if tested < |slots| && slots[i] == slots[tested] then 1 else 0
  }

  // What the quota path of select_pool did with the first `n` of the slots live, the counters at `was` and the
  // index at `rot`. `before` holds the live counters as the tests of live slots began. With no quota left the
  // counters were cleared and the tests began one slot further on. An index behind the live slots otherwise had
  // its left-over slot tested first; if that was not taken, the index wrapped and one test less was left.
  ghost predicate FoundByQuota(slots: seq<Pool>, n: nat, was: seq<int>, rot: nat, rot': nat, found: Pool?,
                               pick: Option<nat>, before: seq<int>)
    requires n <= |slots| == |was|
    reads slots
  {
    var none := forall i | 0 <= i < n :: was[i] >= slots[i].quotaGcd;
    var taken := !none && n <= rot < |slots| && was[rot] < slots[rot].quotaGcd && !slots[rot].Unusable();
    var first := if rot >= n then 0 else if !none then rot else if rot + 1 < n then rot + 1 else 0;
    && |before| == n && (none || rot < |slots|)
    && (none ==> forall i | 0 <= i < n :: before[i] == 0)
    && (!none && rot < n ==> forall i | 0 <= i < n :: before[i] == was[i])
    && (!none && rot >= n ==>
          forall i | 0 <= i < n :: before[i] == was[i] + if slots[i] == slots[rot] then 1 else 0)
    && OthersKept(slots, n, was, if !none && rot >= n then rot else |slots|)
    && (taken ==> found == slots[rot] && rot' == rot && UsedOf(slots[..n]) == before)
    && (!taken ==> SlotsTested(slots[..n], before, first, if none || rot < n then n else n - 1, rot', pick))
    && (!taken ==> found == if pick.Some? then slots[..n][pick.value] else null)
  }

  // No pool among these has quota left.
  ghost predicate NoneLeft(live: seq<Pool>)
    reads live`quotaUsed, live`quotaGcd
  {
    forall i | 0 <= i < |live| :: live[i].quotaUsed >= live[i].quotaGcd
  }

  // The check for pools with quota left and the reset of select_pool; returns the rotation index.
  method BeginRound(live: seq<Pool>, rot: nat) returns (rot': nat)
    requires Distinct(live) && live != []
    modifies live`quotaUsed
    ensures old(NoneLeft(live)) ==>
      rot' == (if rot + 1 < |live| then rot + 1 else 0) && forall i | 0 <= i < |live| :: live[i].quotaUsed == 0
    ensures !old(NoneLeft(live)) ==>
      rot' == rot && forall i | 0 <= i < |live| :: live[i].quotaUsed == old(live[i].quotaUsed)
    ensures rot < |live| ==>
      QuotaScheduler.Sched(UsedOf(live), rot') ==
        QuotaScheduler.Begin(QuotaScheduler.Sched(old(UsedOf(live)), rot), SharesOf(live))
  {
    rot' := rot;
    var avail := false;
    var i := 0;
    while i < |live| && !avail
      invariant 0 <= i <= |live|
      invariant !avail ==> forall j | 0 <= j < i :: live[j].quotaUsed >= live[j].quotaGcd
      invariant avail ==> exists j :: 0 <= j < |live| && live[j].quotaUsed < live[j].quotaGcd
      decreases |live| - i, !avail
    {
      if live[i].quotaUsed < live[i].quotaGcd {
        avail := true;
      } else {
        i := i + 1;
      }
    }
    if !avail {
      ResetUsed(live);
      rot' := if rot + 1 >= |live| then 0 else rot + 1;
      assert UsedOf(live) == QuotaScheduler.Zeros(|live|);
    }
  }

  method ResetUsed(live: seq<Pool>)
    modifies live`quotaUsed
    ensures forall i | 0 <= i < |live| :: live[i].quotaUsed == 0
  {
    var i := 0;
    while i < |live|
      invariant 0 <= i <= |live|
      invariant forall j | 0 <= j < i :: live[j].quotaUsed == 0
    {
      live[i].quotaUsed := 0;
      i := i + 1;
    }
  }

  // Charges the pool in slot `k`; returns what it had been charged before.
  method Charge(pool: Pool, ghost live: seq<Pool>, ghost k: nat) returns (charged: int)
    requires Distinct(live) && k < |live| && live[k] == pool
    modifies pool`quotaUsed
    ensures charged == old(pool.quotaUsed)
    ensures UsedOf(live) == old(UsedOf(live))[k := charged + 1]
  {
    ghost var before := UsedOf(live);
    charged := pool.quotaUsed;
    pool.quotaUsed := charged + 1;
    assert UsedOf(live) == before[k := charged + 1];
  }

  lemma ProbeUnfolds(s: QuotaScheduler.Sched, g: seq<nat>, u: seq<bool>, left: nat)
    requires s.Valid(|g|) && |u| == |g| && left > 0
    ensures var p := s.rot; var charged := s.used[p := s.used[p] + 1];
      QuotaScheduler.Probe(s, g, u, left) ==
        if s.used[p] < g[p] && u[p] then (QuotaScheduler.Sched(charged, p), Some(p))
        else QuotaScheduler.Probe(QuotaScheduler.Sched(charged, QuotaScheduler.Next(p, |g|)), g, u, left - 1)
  {
  }

  // One test of the rotation of select_pool: charge the pool, take it or move on.
  method TestOne(live: seq<Pool>, rot: nat, ghost g: seq<nat>, ghost u: seq<bool>, ghost left: nat)
      returns (rot': nat, taken: bool)
    requires Distinct(live) && rot < |live| && g == SharesOf(live) && u == UsablesOf(live) && left > 0
    modifies live`quotaUsed
    ensures rot' < |live| && (taken ==> rot' == rot && !live[rot].Unusable())
    ensures QuotaScheduler.Probe(QuotaScheduler.Sched(old(UsedOf(live)), rot), g, u, left) ==
      if taken then (QuotaScheduler.Sched(UsedOf(live), rot), Some(rot))
      else QuotaScheduler.Probe(QuotaScheduler.Sched(UsedOf(live), rot'), g, u, left - 1)
  {
    ProbeUnfolds(QuotaScheduler.Sched(UsedOf(live), rot), g, u, left);
    hide QuotaScheduler.Probe, UsedOf, Distinct, SharesOf, UsablesOf;
    var pool := live[rot];
    var charged := Charge(pool, live, rot);
    taken := charged < pool.quotaGcd && !pool.Unusable();
    rot' := if taken then rot else if rot + 1 >= |live| then 0 else rot + 1;
  }

  // The rotation of select_pool over the live pools, with `left` tests to go.
  method ProbeQuota(live: seq<Pool>, rot: nat, left: nat) returns (rot': nat, pick: Option<nat>)
    requires Distinct(live) && rot < |live|
    modifies live`quotaUsed
    ensures rot' < |live|
    ensures left <= |live| ==> SlotsTested(live, old(UsedOf(live)), rot, left, rot', pick)
    ensures (QuotaScheduler.Sched(UsedOf(live), rot'), pick)
      == QuotaScheduler.Probe(QuotaScheduler.Sched(old(UsedOf(live)), rot), SharesOf(live), UsablesOf(live), left)
    ensures pick.Some? ==> pick.value < |live| && !live[pick.value].Unusable()
  {
    hide QuotaScheduler.Probe, QuotaScheduler.Tests, UsedOf, Distinct, SharesOf, UsablesOf;
    ghost var g, u := SharesOf(live), UsablesOf(live);
    if left <= |live| {
      QuotaScheduler.ProbeTests(QuotaScheduler.Sched(UsedOf(live), rot), g, u, left);
      QuotaScheduler.ProbeEnds(QuotaScheduler.Sched(UsedOf(live), rot), g, u, left);
    }
    ghost var all := QuotaScheduler.Probe(QuotaScheduler.Sched(UsedOf(live), rot), g, u, left);
    rot', pick := rot, None;
    var tested := 0;
    while tested < left
      invariant 0 <= tested <= left && rot' < |live| && pick.None?
      invariant g == SharesOf(live) && u == UsablesOf(live)
      invariant all == QuotaScheduler.Probe(QuotaScheduler.Sched(UsedOf(live), rot'), g, u, left - tested)
    {
      var taken;
      rot', taken := TestOne(live, rot', g, u, left - tested);
      tested := tested + 1;
      if taken {
        pick := Some(rot');
        return;
      }
    }
    ProbeNothing(QuotaScheduler.Sched(UsedOf(live), rot'), g, u);
  }

  // The quota part of select_pool for an index among the live pools.
  method QuotaRound(live: seq<Pool>, rot: nat) returns (rot': nat, pick: Option<nat>, ghost before: seq<int>)
    requires Distinct(live) && rot < |live|
    modifies live`quotaUsed
    ensures rot' < |live|
    ensures |before| == |live| && forall i | 0 <= i < |live| ::
      before[i] == if old(NoneLeft(live)) then 0 else old(live[i].quotaUsed)
    ensures var first := if !old(NoneLeft(live)) then rot else if rot + 1 < |live| then rot + 1 else 0;
      SlotsTested(live, before, first, |live|, rot', pick)
    ensures var o := QuotaScheduler.Call(QuotaScheduler.Sched(old(UsedOf(live)), rot), SharesOf(live), UsablesOf(live));
      QuotaScheduler.Sched(UsedOf(live), rot') == o.next && pick == o.pick
    ensures pick.Some? ==> pick.value < |live| && !live[pick.value].Unusable()
  {
    hide QuotaScheduler.Probe, QuotaScheduler.Begin, UsedOf, Distinct, SharesOf, UsablesOf, SlotsTested;
    var begun := BeginRound(live, rot);
    before := UsedOf(live);
    rot', pick := ProbeQuota(live, begun, |live|);
  }

  // What stands behind the `n` live pools is also live, or cannot be used.
  ghost predicate LeftOversUnusable(slots: seq<Pool>, n: nat)
    requires n <= |slots|
    reads slots`enabled
  {
    forall i | n <= i < |slots| :: slots[i] in slots[..n] || slots[i].enabled != POOL_ENABLED
  }

  // The quota part of select_pool for an index among the `n` live pools.
  method LiveRound(slots: seq<Pool>, n: nat, rot: nat)
      returns (rot': nat, pool: Pool?, ghost pick: Option<nat>, ghost before: seq<int>)
    requires rot < n <= |slots| && Distinct(slots[..n])
    modifies slots[..n]`quotaUsed
    ensures rot' < n && (pool != null ==> pool in slots[..n] && !pool.Unusable())
    ensures FoundByQuota(slots, n, old(UsedOf(slots)), rot, rot', pool, pick, before)
    ensures var live := slots[..n];
      var o := QuotaScheduler.Call(QuotaScheduler.Sched(old(UsedOf(live)), rot), SharesOf(live), UsablesOf(live));
      && QuotaScheduler.Sched(UsedOf(live), rot') == o.next
      && pool == if o.pick.Some? then slots[o.pick.value] else null
  {
    hide Distinct, UsedOf, SharesOf, UsablesOf, SlotsTested, QuotaScheduler.Call, FoundByQuota;
    ghost var was := UsedOf(slots);
    var found;
    rot', found, before := QuotaRound(slots[..n], rot);
    pick := found;
    pool := if found.Some? then slots[..n][found.value] else null;
    FoundInside(slots, n, was, rot, rot', pick, before);
  }

  lemma FoundInside(slots: seq<Pool>, n: nat, was: seq<int>, rot: nat, rot': nat, pick: Option<nat>, before: seq<int>)
    requires rot < n <= |slots| == |was| && |before| == n && (pick.Some? ==> pick.value < n)
    requires var none := forall i | 0 <= i < n :: was[i] >= slots[i].quotaGcd;
      && (forall i | 0 <= i < n :: before[i] == if none then 0 else was[i])
      && SlotsTested(slots[..n], before, if !none then rot else if rot + 1 < n then rot + 1 else 0, n, rot', pick)
    requires OthersKept(slots, n, was, |slots|)
    ensures FoundByQuota(slots, n, was, rot, rot', if pick.Some? then slots[..n][pick.value] else null, pick, before)
  {
    hide SlotsTested, OthersKept;
  }

  // Charges a left-over pool; `before` is what the live counters, its own among them perhaps, show then.
  method TestLeftOver(ghost live: seq<Pool>, stale: Pool) returns (taken: bool, ghost before: seq<int>)
    modifies stale`quotaUsed
    ensures stale.quotaUsed == old(stale.quotaUsed) + 1
    ensures taken <==> old(stale.quotaUsed) < stale.quotaGcd && !stale.Unusable()
    ensures before == UsedOf(live)
    ensures forall i | 0 <= i < |live| :: before[i] == old(live[i].quotaUsed) + if live[i] == stale then 1 else 0
  {
    var charged := stale.quotaUsed;
    stale.quotaUsed := charged + 1;
    taken := charged < stale.quotaGcd && !stale.Unusable();
    before := UsedOf(live);
  }

  // Up to the tests of live slots, for an index behind the `n` live pools: with no quota left the counters are
  // cleared, otherwise the left-over slot is tested; both ways the index then wraps unless that was taken.
  method BeginBehind(slots: seq<Pool>, n: nat, rot: nat) returns (taken: bool, left: nat, ghost before: seq<int>)
    requires 0 < n <= |slots| && n <= rot && Distinct(slots[..n])
    requires rot < |slots| || NoneLeft(slots[..n])
    modifies slots`quotaUsed
    ensures before == UsedOf(slots[..n]) && left == if old(NoneLeft(slots[..n])) then n else n - 1
    ensures old(NoneLeft(slots[..n])) ==>
      !taken && OthersKept(slots, n, old(UsedOf(slots)), |slots|) && forall i | 0 <= i < n :: before[i] == 0
    ensures !old(NoneLeft(slots[..n])) ==>
      && (taken <==> old(slots[rot].quotaUsed) < slots[rot].quotaGcd && !slots[rot].Unusable())
      && OthersKept(slots, n, old(UsedOf(slots)), rot)
      && forall i | 0 <= i < n :: before[i] == old(slots[i].quotaUsed) + if slots[i] == slots[rot] then 1 else 0
  {
    hide Distinct, QuotaScheduler.Begin, UsedOf, SharesOf;
    ghost var live := slots[..n];
    taken, left := false, n;
    var rot' := BeginRound(slots[..n], rot);
    before := UsedOf(live);
    if rot' >= n {
      taken, before := TestLeftOver(live, slots[rot']);
      left := n - 1;
    }
  }

  // The same when a removal has left the index beyond the `n` live pools.
  method LeftOverRound(slots: seq<Pool>, n: nat, rot: nat)
      returns (rot': nat, pool: Pool?, ghost pick: Option<nat>, ghost before: seq<int>)
    requires 0 < n <= |slots| && n <= rot && Distinct(slots[..n])
    requires rot < |slots| || NoneLeft(slots[..n])
    modifies slots`quotaUsed
    ensures rot' < |slots| && (pool != null ==> pool in slots && !pool.Unusable())
    ensures pool != null && LeftOversUnusable(slots, n) ==> pool in slots[..n]
    ensures FoundByQuota(slots, n, old(UsedOf(slots)), rot, rot', pool, pick, before)
  {
    hide Distinct, QuotaScheduler.Probe, SlotsTested, UsedOf, SharesOf, UsablesOf, FoundByQuota, OthersKept;
    ghost var was, none := UsedOf(slots), NoneLeft(slots[..n]);
    assert none == forall i | 0 <= i < n :: was[i] >= slots[i].quotaGcd;
    var taken, left;
    taken, left, before := BeginBehind(slots, n, rot);
    if taken {
      FoundLeftOver(slots, n, was, rot, before);
      return rot, slots[rot], None, before;
    }
    var found;
    rot', found := TestFromFirst(slots, n, left, was, if none then |slots| else rot);
    pick := found;
    pool := if found.Some? then slots[..n][found.value] else null;
    FoundBehind(slots, n, was, rot, rot', pick, before, none);
  }

  // The tests of live slots do not touch the others.
  method TestFromFirst(slots: seq<Pool>, n: nat, left: nat, ghost was: seq<int>, ghost tested: nat)
      returns (rot': nat, pick: Option<nat>)
    requires 0 < n <= |slots| == |was| && left <= n && Distinct(slots[..n]) && OthersKept(slots, n, was, tested)
    modifies slots[..n]`quotaUsed
    ensures SlotsTested(slots[..n], old(UsedOf(slots[..n])), 0, left, rot', pick) && OthersKept(slots, n, was, tested)
    ensures rot' < n && (pick.Some? ==> pick.value < n && !slots[..n][pick.value].Unusable())
  {
    hide Distinct, QuotaScheduler.Probe, SlotsTested, UsedOf, SharesOf, UsablesOf;
    rot', pick := ProbeQuota(slots[..n], 0, left);
  }

  lemma FoundLeftOver(slots: seq<Pool>, n: nat, was: seq<int>, rot: nat, before: seq<int>)
    requires n <= rot < |slots| == |was| && before == UsedOf(slots[..n])
    requires !forall i | 0 <= i < n :: was[i] >= slots[i].quotaGcd
    requires was[rot] < slots[rot].quotaGcd && !slots[rot].Unusable()
    requires forall i | 0 <= i < n :: before[i] == was[i] + if slots[i] == slots[rot] then 1 else 0
    requires OthersKept(slots, n, was, rot)
    ensures FoundByQuota(slots, n, was, rot, rot, slots[rot], None, before)
  {
    hide SlotsTested, OthersKept, UsedOf;
  }

  lemma FoundBehind(slots: seq<Pool>, n: nat, was: seq<int>, rot: nat, rot': nat, pick: Option<nat>, before: seq<int>,
                    none: bool)
    requires 0 < n <= |slots| == |was| && n <= rot && |before| == n && (pick.Some? ==> pick.value < n)
    requires none == forall i | 0 <= i < n :: was[i] >= slots[i].quotaGcd
    requires none || (rot < |slots| && !(was[rot] < slots[rot].quotaGcd && !slots[rot].Unusable()))
    requires none ==> forall i | 0 <= i < n :: before[i] == 0
    requires !none ==> forall i | 0 <= i < n :: before[i] == was[i] + if slots[i] == slots[rot] then 1 else 0
    requires OthersKept(slots, n, was, if none then |slots| else rot)
    requires SlotsTested(slots[..n], before, 0, if none then n else n - 1, rot', pick)
    ensures FoundByQuota(slots, n, was, rot, rot', if pick.Some? then slots[..n][pick.value] else null, pick, before)
  {
    hide SlotsTested, OthersKept;
  }

  lemma ProbeNothing(s: QuotaScheduler.Sched, g: seq<nat>, u: seq<bool>)
    requires s.Valid(|g|) && |u| == |g|
    ensures QuotaScheduler.Probe(s, g, u, 0) == (s, None)
  {
  }

  // select_balanced
  method SelectBalanced(live: seq<Pool>, cp: Pool) returns (ret: Pool)
    modifies live`shares, cp`shares
    ensures ret == cp || (ret in live && !ret.Unusable() && old(ret.shares) < old(cp.shares))
    ensures forall i | 0 <= i < |live| && !live[i].Unusable() :: old(ret.shares) <= old(live[i].shares)
    ensures ret != cp ==> exists k ::
      && 0 <= k < |live| && live[k] == ret
      && forall i | 0 <= i < k && !live[i].Unusable() :: old(live[i].shares) > old(ret.shares)
    ensures ret.shares == old(ret.shares) + 1
    ensures forall i | 0 <= i < |live| && live[i] != ret :: live[i].shares == old(live[i].shares)
    ensures ret != cp ==> cp.shares == old(cp.shares)
  {
    var lowest := cp.shares;
    ret := cp;
    var i := 0;
    while i < |live|
      invariant 0 <= i <= |live|
      invariant lowest == ret.shares
      invariant ret == cp || (ret in live && !ret.Unusable() && ret.shares < cp.shares)
      invariant forall j | 0 <= j < i && !live[j].Unusable() :: ret.shares <= live[j].shares
      invariant ret.shares <= cp.shares
      invariant ret != cp ==> exists k ::
        && 0 <= k < i && live[k] == ret
        && forall j | 0 <= j < k && !live[j].Unusable() :: live[j].shares > ret.shares
    {
      var pool := live[i];
      if !pool.Unusable() && pool.shares < lowest {
        lowest := pool.shares;
        ret := pool;
      }
      i := i + 1;
    }
    ret.shares := ret.shares + 1;
  }

  class Manager {
    var pools: seq<Pool>
    var totalPools: nat
    var current: Pool?
    var strategy: Strategy
    var rotatingPool: nat
    var globalQuotaGcd: nat

    function LivePools(): seq<Pool>
      requires totalPools <= |pools|
      reads `pools, `totalPools
    {
      pools[..totalPools]
    }

    ghost predicate Live(pool: Pool)
      reads `pools, `totalPools
    {
      totalPools <= |pools| && pool in LivePools()
    }

    function Prios(): seq<int>
      requires totalPools <= |pools|
      reads `pools, `totalPools, pools`prio
    {
      PriosOf(LivePools())
    }

    // Every live pool knows its slot, and the priorities are a permutation.
    ghost predicate Valid()
      reads `pools, `totalPools, `globalQuotaGcd, pools`prio, pools`poolNo
    {
      && totalPools <= |pools|
      && Numbered(LivePools())
      && IsPerm(Prios())
      && globalQuotaGcd > 0
    }

    ghost predicate CurrentLive()
      reads `current, `pools, `totalPools
    {
      current != null && Live(current)
    }

    constructor (strategy: Strategy)
      ensures Valid() && pools == [] && totalPools == 0 && rotatingPool == 0 && this.strategy == strategy
    {
      pools, totalPools, current, rotatingPool, globalQuotaGcd := [], 0, null, 0, 1;
      this.strategy := strategy;
    }

    lemma LiveDistinct()
      requires Valid()
      ensures Distinct(LivePools())
    {
      forall i, j | 0 <= i < j < totalPools ensures pools[i] != pools[j] {
        assert pools[i].poolNo != pools[j].poolNo;
      }
    }

    lemma LivePrios()
      requires Valid()
      ensures HasPrios(LivePools(), Prios())
    {
    }

    lemma LiveFacts()
      requires Valid()
      ensures Distinct(LivePools()) && HasPrios(LivePools(), Prios())
      ensures forall pool | Live(pool) :: 0 <= pool.poolNo < totalPools && pools[pool.poolNo] == pool
    {
      LiveDistinct();
    }

    lemma PriosAre(p: seq<int>)
      requires totalPools <= |pools| && HasPrios(LivePools(), p)
      ensures Prios() == p
    {
    }

    method PromoteIfSelected(selected: Pool?)
      requires Valid() && (selected != null ==> Live(selected))
      modifies LivePools()`prio
      ensures Valid()
      ensures Prios() == if selected == null then old(Prios()) else Promote(old(Prios()), selected.poolNo)
    {
      if selected != null {
        LiveFacts();
        ghost var p := Prios();
        PromoteKeepsOrder(p, selected.poolNo);
        hide IsPerm, Promote;
        PromoteSelected(LivePools(), selected.poolNo, p);
        PriosAre(Promote(p, selected.poolNo));
      }
    }

    lemma SelectedSettles(selected: Pool?, c: nat, poolNo: nat)
      requires Valid() && CurrentLive() && c < totalPools && current.poolNo == poolNo
      requires selected != null ==> Live(selected) && Prios()[selected.poolNo] == 0
      requires Settled(strategy, UsablesOf(LivePools()), Prios(), SlotOf(selected), selected != null && selected.idle,
                       c, poolNo)
      ensures strategy != POOL_ROUNDROBIN && strategy != POOL_ROTATE && selected != null && !selected.Unusable() ==>
        current == selected
    {
      hide IsPerm, Settled;
      LiveFacts();
      if strategy != POOL_ROUNDROBIN && strategy != POOL_ROTATE && selected != null && !selected.Unusable() {
        FirstSettles(strategy, UsablesOf(LivePools()), Prios(), selected.poolNo, selected.idle, c, poolNo);
      }
    }

    // The switch over the strategies, and the pool it settles on.
    method SettleOn(selected: Pool?, c: nat)
      requires Valid() && c < totalPools
      requires selected != null ==> Live(selected) && Prios()[selected.poolNo] == 0
      modifies `current
      ensures Valid() && CurrentLive() && Prios() == old(Prios()) && 0 <= current.poolNo
      ensures Settled(strategy, UsablesOf(LivePools()), Prios(), SlotOf(selected), selected != null && selected.idle,
                      c, current.poolNo)
      ensures strategy != POOL_ROUNDROBIN && strategy != POOL_ROTATE && selected != null && !selected.Unusable() ==>
        current == selected
    {
      hide IsPerm, Settled, Distinct, PriosOf, HasPrios, UsablesOf;
      LiveFacts();
      var poolNo := ChoosePool(strategy, LivePools(), Prios(), selected, c);
      current := pools[poolNo];
      SelectedSettles(selected, c, poolNo);
    }

    // Returns the pool whose staged work is thrown away, if any.
    method SwitchPools(selected: Pool?) returns (flushed: Pool?)
      requires Valid() && CurrentLive() && (selected != null ==> Live(selected))
      modifies this`current, LivePools()`prio
      ensures Valid() && CurrentLive()
      ensures Prios() == if selected == null then old(Prios()) else Promote(old(Prios()), selected.poolNo)
      ensures 0 <= old(current.poolNo) < totalPools && 0 <= current.poolNo
      ensures Settled(strategy, UsablesOf(LivePools()), Prios(), SlotOf(selected), selected != null && selected.idle,
                      old(current.poolNo), current.poolNo)
      ensures strategy != POOL_ROUNDROBIN && strategy != POOL_ROTATE && selected != null && !selected.Unusable() ==>
        current == selected
      ensures flushed == if current != old(current) && strategy != POOL_LOADBALANCE && strategy != POOL_BALANCE
                         then old(current) else null
    {
      hide IsPerm, Promote, Settled, Distinct, PriosOf, HasPrios, UsablesOf;
      var lastPool := current;
      LiveFacts();
      var c := lastPool.poolNo;
      PromoteIfSelected(selected);
      SettleOn(selected, c);
      if current != lastPool && strategy != POOL_LOADBALANCE && strategy != POOL_BALANCE {
        flushed := lastPool;
      } else {
        flushed := null;
      }
    }

    // The pool cannot be freed: it is only taken off the list, and the last one moves into its slot.
    method RemovePool(pool: Pool)
      requires Valid() && Live(pool)
      modifies `pools, `totalPools, LivePools()`prio, LivePools()`poolNo, pool`removed
      ensures Valid() && totalPools == old(totalPools) - 1
      ensures Prios() == Remove(old(Prios()), old(pool.poolNo))
      ensures LivePools() == WithoutSlot(old(LivePools()), old(pool.poolNo))
      ensures pools == Vacated(old(pools), old(totalPools), old(pool.poolNo))
      ensures pool.removed && pool.poolNo == old(totalPools)
    {
      hide IsPerm;
      LiveFacts();
      ghost var p, live := Prios(), LivePools();
      RemoveKeepsOrder(p, pool.poolNo);
      CloseGap(LivePools(), pool.poolNo, p);
      TakeOffList(pool);
      PriosAre(Remove(p, old(pool.poolNo)));
    }

    method TakeOffList(pool: Pool)
      requires totalPools <= |pools| && Numbered(LivePools()) && Live(pool)
      modifies `pools, `totalPools, LivePools()`poolNo, pool`removed
      ensures totalPools == old(totalPools) - 1 && totalPools <= |pools|
      ensures LivePools() == WithoutSlot(old(LivePools()), old(pool.poolNo))
      ensures pools == Vacated(old(pools), old(totalPools), old(pool.poolNo))
      ensures Numbered(LivePools())
      ensures pool.removed && pool.poolNo == old(totalPools)
    {
      ghost var live := LivePools();
      var k, last := pool.poolNo, totalPools - 1;
      if k < last {
        pools[last].poolNo := k;
        pools := pools[k := pools[last]];
      }
      pool.poolNo := totalPools;
      pool.removed := true;
      totalPools := totalPools - 1;
      assert LivePools() == WithoutSlot(live, k);
    }

    // adjust_quota_gcd
    method AdjustQuotaGcd()
      requires Valid()
      modifies `globalQuotaGcd, LivePools()`quotaUsed, LivePools()`quotaGcd
      ensures Valid() && globalQuotaGcd == QuotaGcd.Adjusted(QuotasOf(LivePools()))
      ensures forall i | 0 <= i < totalPools ::
        && pools[i].quotaGcd == QuotaGcd.PerRound(pools[i].quota, globalQuotaGcd)
        && pools[i].quotaUsed == Rescale(old(pools[i].quotaUsed), old(globalQuotaGcd), globalQuotaGcd)
    {
      hide IsPerm, Rescale, QuotaGcd.Adjusted, QuotaGcd.PerRound, PriosOf, HasPrios, QuotasOf, Numbered, Distinct;
      LiveDistinct();
      var live, was := LivePools(), globalQuotaGcd;
      var gcd := FindGcd(live);
      ScaleQuotas(live, was, gcd);
      assert QuotasOf(live) == old(QuotasOf(live));
      globalQuotaGcd := gcd;
      assert LivePools() == live && Valid();
      forall i | 0 <= i < totalPools
        ensures pools[i].quotaGcd == QuotaGcd.PerRound(pools[i].quota, gcd)
        ensures pools[i].quotaUsed == Rescale(old(pools[i].quotaUsed), was, gcd)
      {
        assert pools[i] == live[i];
      }
    }

    method AddPool() returns (pool: Pool)
      requires Valid()
      modifies `pools, `totalPools, `globalQuotaGcd, LivePools()`quotaUsed, LivePools()`quotaGcd
      ensures Valid() && fresh(pool) && totalPools == old(totalPools) + 1
      ensures LivePools() == old(LivePools()) + [pool]
      ensures Prios() == old(Prios()) + [old(totalPools)]
      ensures globalQuotaGcd == QuotaGcd.Adjusted(QuotasOf(LivePools()))
      ensures forall i | 0 <= i < totalPools :: pools[i].quotaGcd == QuotaGcd.PerRound(pools[i].quota, globalQuotaGcd)
      ensures pool.quota == 1 && pool.quotaUsed == 0 && forall i | 0 <= i < old(totalPools) ::
        pools[i].quotaUsed == Rescale(old(pools[i].quotaUsed), old(globalQuotaGcd), globalQuotaGcd)
      ensures pools == Reallocated(old(pools), old(totalPools), pool)
      ensures if old(|pools|) <= old(totalPools) + 1 then |pools| == totalPools
              else |pools| == totalPools + 1 && pools[totalPools] == old(pools)[totalPools]
      ensures old(rotatingPool) < old(|pools|) ==> (rotatingPool < |pools| <==> rotatingPool <= old(totalPools) + 1)
      ensures old(LeftOversUnusable(pools, totalPools)) ==> LeftOversUnusable(pools, totalPools)
    {
      hide QuotaGcd.Adjusted, QuotaGcd.PerRound, Rescale, QuotaGcd.Share, IsPerm, PriosOf, Numbered, QuotasOf,
           LeftOversUnusable;
      ghost var slots, n, g := pools, totalPools, globalQuotaGcd;
      pool := AppendPool();
      LeftOversKept(slots, n, pool);
      assert forall i | 0 <= i < n :: pools[i] == slots[i];
      AdjustQuotaGcd();
      assert pools[n] == pool;
      ZeroStaysZero(g, globalQuotaGcd);
    }

    method AppendPool() returns (pool: Pool)
      requires Valid()
      modifies `pools, `totalPools
      ensures Valid() && fresh(pool) && totalPools == old(totalPools) + 1
      ensures LivePools() == old(LivePools()) + [pool]
      ensures Prios() == old(Prios()) + [old(totalPools)]
      ensures pools == Reallocated(old(pools), old(totalPools), pool) && pool.quotaUsed == 0 && pool.quota == 1
    {
      hide IsPerm;
      ghost var p, live := Prios(), LivePools();
      AppendIsPerm(p);
      pool := new Pool(totalPools);
      pools := pools[..totalPools] + [pool] + (if |pools| > totalPools + 1 then [pools[totalPools + 1]] else []);
      totalPools := totalPools + 1;
      assert LivePools() == live + [pool];
      PriosAre(p + [totalPools - 1]);
    }

    // The poolpriority command.
    method PoolPriority(ids: seq<int>) returns (reply: PrioReply)
      requires Valid() && (totalPools > 0 ==> CurrentLive())
      modifies `current, LivePools()`prio
      ensures Valid() && (totalPools > 0 ==> CurrentLive())
      ensures reply.NoPool? <==> totalPools == 0
      ensures reply.MissingIds? <==> totalPools > 0 && ids == []
      ensures reply.Reordered? <==> totalPools > 0 && ids != [] && ValidIds(ids, totalPools)
      ensures Prios() == if reply.Reordered? then Reprioritise(old(Prios()), ids) else old(Prios())
      ensures reply.InvalidId? || reply.DuplicateId? ==>
        exists k :: 0 <= k < |ids| && FirstBad(ids, totalPools, k) && reply == Complaint(ids[k], totalPools)
      ensures !reply.Reordered? || old(current).prio == 0 ==> current == old(current)
      ensures reply.Reordered? && old(current).prio != 0 ==>
        && 0 <= old(current.poolNo) < totalPools && 0 <= current.poolNo
        && Settled(strategy, UsablesOf(LivePools()), Prios(), None, false, old(current.poolNo), current.poolNo)
    {
      hide IsPerm, Settled, ValidIds, Reprioritise, Listed, PriosOf, FirstBad, UsablesOf;
      if totalPools == 0 {
        return NoPool;
      }
      if ids == [] {
        return MissingIds;
      }
      var changed, newPrio := new bool[totalPools](_ => false), new int[totalPools];
      reply := CheckIds(ids, totalPools, changed, newPrio);
      if reply.Reordered? {
        ReorderLive(ids, changed, newPrio);
        if current.prio != 0 {
          var _ := SwitchPools(null);
        }
      }
    }

    method ReorderLive(ids: seq<int>, changed: array<bool>, newPrio: array<int>)
      requires Valid() && ValidIds(ids, totalPools) && Listed(changed[..], newPrio[..], ids, totalPools)
      modifies LivePools()`prio, changed
      ensures Valid() && Prios() == Reprioritise(old(Prios()), ids)
    {
      hide IsPerm;
      LiveFacts();
      ghost var p := Prios();
      ReprioritiseCorrect(p, ids);
      PlaceListed(LivePools(), changed, newPrio, p, ids);
      ListedIsPlaced(LivePools(), changed, newPrio, p, ids);
      AppendOthers(LivePools(), changed, |ids|, p, ids);
      PriosAre(Reprioritise(p, ids));
    }

    // What the scheduler does from here.
    ghost function QuotaOutcome(): QuotaScheduler.Outcome
      requires totalPools <= |pools| && rotatingPool < totalPools
      reads `pools, `totalPools, `rotatingPool, pools
    {
      QuotaScheduler.Call(QuotaScheduler.Sched(UsedOf(LivePools()), rotatingPool), SharesOf(LivePools()),
                          UsablesOf(LivePools()))
    }

    // The index names an allocated slot, or it is about to be reset with the counters.
    ghost predicate InReach()
      requires totalPools <= |pools|
      reads `pools, `totalPools, `rotatingPool, pools`quotaUsed, pools`quotaGcd
    {
      rotatingPool < |pools| || NoneLeft(LivePools())
    }

    method SetRotation(rot: nat)
      requires Valid()
      modifies `rotatingPool
      ensures Valid() && rotatingPool == rot
    {
      rotatingPool := rot;
    }

    // The quota path of select_pool: the pool found by quota, if any.
    method SelectByQuota() returns (pool: Pool?, ghost pick: Option<nat>, ghost before: seq<int>)
      requires Valid() && totalPools > 0 && InReach()
      modifies `rotatingPool, pools`quotaUsed
      ensures Valid() && rotatingPool < |pools|
      ensures FoundByQuota(pools, totalPools, old(UsedOf(pools)), old(rotatingPool), rotatingPool, pool, pick, before)
      ensures pool != null ==> pool in pools && !pool.Unusable()
      ensures pool != null && LeftOversUnusable(pools, totalPools) ==> Live(pool)
      ensures old(rotatingPool) < totalPools ==>
        && rotatingPool < totalPools
        && old(QuotaOutcome()).next == QuotaScheduler.Sched(UsedOf(LivePools()), rotatingPool)
        && pool == if old(QuotaOutcome()).pick.Some? then pools[old(QuotaOutcome()).pick.value] else null
    {
      hide IsPerm, PriosOf, HasPrios, Distinct, Numbered, QuotaScheduler.Call, UsedOf, SharesOf, UsablesOf,
           FoundByQuota;
      LiveDistinct();
      if rotatingPool >= totalPools {
        var rot;
        rot, pool, pick, before := LeftOverRound(pools, totalPools, rotatingPool);
        SetRotation(rot);
      } else {
        var rot;
        rot, pool, pick, before := LiveRound(pools, totalPools, rotatingPool);
        SetRotation(rot);
      }
    }

    // select_pool under the load-balance strategy: by quota, then by priority, then the current pool.
    method SelectLoadBalanced()
        returns (pool: Pool, ghost found: Pool?, ghost pick: Option<nat>, ghost before: seq<int>)
      requires Valid() && CurrentLive() && InReach()
      modifies `rotatingPool, pools`quotaUsed
      ensures Valid() && rotatingPool < |pools|
      ensures FoundByQuota(pools, totalPools, old(UsedOf(pools)), old(rotatingPool), rotatingPool, found, pick, before)
      ensures if found != null then pool == found else FailsOver(pool)
      ensures LeftOversUnusable(pools, totalPools) ==> Live(pool)
      ensures (exists i :: 0 <= i < totalPools && !pools[i].Unusable()) ==> !pool.Unusable()
      ensures old(rotatingPool) < totalPools ==>
        && rotatingPool < totalPools
        && old(QuotaOutcome()).next == QuotaScheduler.Sched(UsedOf(LivePools()), rotatingPool)
        && if old(QuotaOutcome()).pick.Some? then pool == pools[old(QuotaOutcome()).pick.value] else FailsOver(pool)
    {
      hide IsPerm, PriosOf, Distinct, Numbered, QuotaScheduler.Call, UsedOf, SharesOf, UsablesOf, FailsOver, InReach,
           LeftOversUnusable, FoundByQuota;
      var byQuota;
      byQuota, pick, before := SelectByQuota();
      found := byQuota;
      if byQuota != null {
        pool := byQuota;
      } else {
        pool := SelectByPriority();
      }
    }

    method SelectByPriority() returns (pool: Pool)
      requires Valid() && CurrentLive()
      ensures FailsOver(pool) && Live(pool)
      ensures (forall i | 0 <= i < totalPools :: pools[i].Unusable()) ==> pool == current
      ensures forall i | 0 <= i < totalPools && !pools[i].Unusable() :: pool.prio <= pools[i].prio
      ensures (exists i :: 0 <= i < totalPools && !pools[i].Unusable()) ==> !pool.Unusable()
    {
      hide IsPerm, PriosOf, Distinct, Numbered;
      LiveFacts();
      var best := FirstUsable(LivePools(), Prios());
      pool := if best < totalPools then pools[best] else current;
    }

    // select_pool
    method SelectPool() returns (pool: Pool, ghost found: Pool?, ghost pick: Option<nat>, ghost before: seq<int>)
      requires Valid() && CurrentLive() && (strategy == POOL_LOADBALANCE ==> InReach())
      modifies `rotatingPool, pools`quotaUsed, pools`shares
      ensures Valid() && (LeftOversUnusable(pools, totalPools) ==> Live(pool))
      ensures strategy != POOL_LOADBALANCE ==>
        rotatingPool == old(rotatingPool) && Live(pool) && UsedOf(pools) == old(UsedOf(pools))
      ensures strategy != POOL_BALANCE ==> forall i | 0 <= i < |pools| :: pools[i].shares == old(pools[i].shares)
      ensures strategy != POOL_LOADBALANCE && strategy != POOL_BALANCE ==> pool == current
      ensures strategy == POOL_BALANCE ==>
        && (forall i | 0 <= i < totalPools && !pools[i].Unusable() :: old(pool.shares) <= old(pools[i].shares))
        && pool.shares == old(pool.shares) + 1
        && (forall i | 0 <= i < totalPools && pools[i] != pool :: pools[i].shares == old(pools[i].shares))
      ensures strategy == POOL_LOADBALANCE ==>
        FoundByQuota(pools, totalPools, old(UsedOf(pools)), old(rotatingPool), rotatingPool, found, pick, before)
      ensures strategy == POOL_LOADBALANCE ==> if found != null then pool == found else FailsOver(pool)
      ensures strategy == POOL_LOADBALANCE ==> rotatingPool < |pools|
      ensures strategy == POOL_LOADBALANCE && (exists i :: 0 <= i < totalPools && !pools[i].Unusable()) ==>
        !pool.Unusable()
      ensures strategy == POOL_LOADBALANCE && old(rotatingPool) < totalPools ==>
        && rotatingPool < totalPools
        && old(QuotaOutcome()).next == QuotaScheduler.Sched(UsedOf(LivePools()), rotatingPool)
        && if old(QuotaOutcome()).pick.Some? then pool == pools[old(QuotaOutcome()).pick.value] else FailsOver(pool)
    {
      hide IsPerm, PriosOf, Distinct, Numbered, QuotaScheduler.Call, UsedOf, SharesOf, UsablesOf, FailsOver, InReach,
           LeftOversUnusable, FoundByQuota;
      found, pick, before := null, None, [];
      if strategy == POOL_BALANCE {
        pool := SelectBalanced(LivePools(), current);
      } else if strategy != POOL_LOADBALANCE {
        pool := current;
      } else {
        pool, found, pick, before := SelectLoadBalanced();
      }
    }

    // The usable pool of least priority, or the current one when none is usable.
    ghost predicate FailsOver(pool: Pool)
      reads this, pools, pool
    {
      if exists i :: 0 <= i < totalPools <= |pools| && !pools[i].Unusable() then
        !pool.Unusable() && forall i | 0 <= i < totalPools && !pools[i].Unusable() :: pool.prio <= pools[i].prio
      else pool == current
    }

    // The removepool command, once its id has been parsed: the current pool is switched away from first, to
    // slot `next`, and neither the last pool nor one that stays current is removed.
    method RemoveCommand(id: int) returns (reply: RemoveReply, ghost next: nat)
      requires Valid() && (totalPools > 0 ==> CurrentLive())
      modifies `pools, `totalPools, `current, LivePools()`prio, LivePools()`poolNo
      modifies if 0 <= id < totalPools then {pools[id]} else {}
      ensures Valid() && (totalPools > 0 ==> CurrentLive())
      ensures reply.NoPools? <==> old(totalPools) == 0
      ensures reply.UnknownPool? <==> old(totalPools) > 0 && !(0 <= id < old(totalPools))
      ensures reply.LastPool? <==> 0 <= id < old(totalPools) == 1
      ensures reply.StillActive? <==> 0 <= id < old(totalPools) && old(totalPools) > 1 && current == old(pools[id])
      ensures 0 <= id < old(totalPools) && old(totalPools) > 1 && old(pools[id] == current) ==>
        && next < old(totalPools) && current == old(pools)[next]
        && Settled(strategy, old(UsablesOf(LivePools())), old(Prios()), None, false, id, next)
      ensures !(0 <= id < old(totalPools)) || old(totalPools) == 1 || old(pools[id] != current) ==>
        current == old(current)
      ensures reply.Removed? ==> 0 <= id < old(totalPools) && totalPools == old(totalPools) - 1 > 0
      ensures reply.Removed? ==> old(pools[id]).removed && old(pools[id]).Unusable() && !Live(old(pools[id]))
      ensures reply.Removed? ==> Prios() == Remove(old(Prios()), id)
      ensures reply.Removed? ==> pools == Vacated(old(pools), old(totalPools), id)
      ensures !reply.Removed? ==> pools == old(pools) && totalPools == old(totalPools) && Prios() == old(Prios())
      ensures old(LeftOversUnusable(pools, totalPools)) ==> LeftOversUnusable(pools, totalPools)
    {
      hide IsPerm, PriosOf, Numbered, Settled, HasPrios, Distinct, Remove, WithoutSlot, Vacated, LeftOversUnusable;
      next := 0;
      if totalPools == 0 {
        return NoPools, next;
      }
      if id < 0 || id >= totalPools {
        return UnknownPool, next;
      }
      if totalPools <= 1 {
        return LastPool, next;
      }
      var pool := pools[id];
      SlotNumber(id);
      if pool == current {
        next := SwitchAway();
      }
      if pool == current {
        return StillActive, next;
      }
      DisableAndRemove(pool, id);
      return Removed, next;
    }

    // Another pool becomes current, if the strategy finds one.
    method SwitchAway() returns (ghost next: nat)
      requires Valid() && CurrentLive()
      modifies `current, LivePools()`prio
      ensures Valid() && CurrentLive() && Prios() == old(Prios())
      ensures 0 <= old(current.poolNo) < totalPools && next < totalPools && current == pools[next]
      ensures Settled(strategy, old(UsablesOf(LivePools())), Prios(), None, false, old(current.poolNo), next)
    {
      hide IsPerm, PriosOf, Numbered, Settled, HasPrios, Distinct, UsablesOf;
      LiveFacts();
      ghost var c := current.poolNo;
      var _ := SwitchPools(null);
      LiveFacts();
      next := current.poolNo;
    }

    // The pool is put out of use before it is taken off the list.
    method Disable(pool: Pool, ghost k: nat)
      requires Valid() && CurrentLive() && k < totalPools && pools[k] == pool != current
      modifies pool`enabled
      ensures Valid() && pool.enabled == POOL_DISABLED && Prios() == old(Prios()) && Live(pool) && pool.poolNo == k
      ensures current in WithoutSlot(LivePools(), k) && pool !in WithoutSlot(LivePools(), k)
      ensures old(LeftOversUnusable(pools, totalPools)) ==>
        LeftOversUnusable(Vacated(pools, totalPools, k), totalPools - 1)
    {
      hide IsPerm, PriosOf, HasPrios, WithoutSlot, Vacated;
      LiveFacts();
      SlotNumber(k);
      pool.enabled := POOL_DISABLED;
      SurvivorsStay(LivePools(), k, current);
      if LeftOversUnusable(pools, totalPools) {
        LeftOversAfter(pools, totalPools, k);
      }
    }

    method DisableAndRemove(pool: Pool, ghost k: nat)
      requires Valid() && CurrentLive() && k < totalPools && pools[k] == pool != current && totalPools > 1
      modifies `pools, `totalPools, LivePools()`prio, LivePools()`poolNo, pool
      ensures Valid() && CurrentLive() && totalPools == old(totalPools) - 1
      ensures pool.removed && pool.Unusable() && !Live(pool)
      ensures Prios() == Remove(old(Prios()), k) && pools == Vacated(old(pools), old(totalPools), k)
      ensures old(LeftOversUnusable(pools, totalPools)) ==> LeftOversUnusable(pools, totalPools)
    {
      hide IsPerm, PriosOf, Numbered, HasPrios, Distinct, Remove, WithoutSlot, Vacated, LeftOversUnusable;
      Disable(pool, k);
      ghost var slots, n := Vacated(pools, totalPools, k), totalPools - 1;
      assert old(LeftOversUnusable(pools, totalPools)) ==> LeftOversUnusable(slots, n);
      RemovePool(pool);
      assert pools == slots && totalPools == n;
      assert old(LeftOversUnusable(pools, totalPools)) ==> LeftOversUnusable(slots, n);
    }

    lemma SlotNumber(i: nat)
      requires Valid() && i < totalPools
      ensures pools[i].poolNo == i
    {
    }
  }

  lemma SurvivorsStay(live: seq<Pool>, k: nat, other: Pool)
    requires Distinct(live) && k < |live| && other in live && other != live[k]
    ensures other in WithoutSlot(live, k) && live[k] !in WithoutSlot(live, k)
  {
    var i :| 0 <= i < |live| && live[i] == other;
    assert WithoutSlot(live, k)[if i == |live| - 1 then k else i] == other;
  }

  lemma ListedIsPlaced(live: seq<Pool>, changed: array<bool>, newPrio: array<int>, p: seq<int>, ids: seq<int>)
    requires |p| == |live| && IsPerm(p) && Listed(changed[..], newPrio[..], ids, |p|)
    requires forall j | 0 <= j < |live| :: live[j].prio == if j in ids then Position(ids, j) else p[j]
    ensures PlacedBelow(live, changed, p, ids, Reprioritise(p, ids), 0)
  {
    assert forall j | 0 <= j < |live| :: changed[j] == changed[..][j];
  }

  // The array of n + 2 slots that adding a pool to `n` live ones leaves, without the last slot when nothing
  // has been stored there.
  function Reallocated<T>(slots: seq<T>, n: nat, added: T): seq<T>
    requires n <= |slots|
  {
    slots[..n] + [added] + if |slots| > n + 1 then [slots[n + 1]] else []
  }

  // The slots after the last of the `n` live pools has moved into slot `k`; none is given back.
  function Vacated<T>(slots: seq<T>, n: nat, k: nat): (t: seq<T>)
    requires k < n <= |slots|
    ensures |t| == |slots| && forall i | 0 <= i < |slots| :: t[i] == slots[if i == k then n - 1 else i]
  {
    if k < n - 1 then slots[k := slots[n - 1]] else slots
  }

  lemma LeftOversKept(slots: seq<Pool>, n: nat, added: Pool)
    requires n <= |slots|
    ensures LeftOversUnusable(slots, n) ==> LeftOversUnusable(Reallocated(slots, n, added), n + 1)
  {
    var t := Reallocated(slots, n, added);
    if LeftOversUnusable(slots, n) && |t| > n + 1 && slots[n + 1].enabled == POOL_ENABLED {
      var j :| 0 <= j < n && slots[j] == slots[n + 1];
      assert t[..n + 1][j] == t[n + 1];
    }
  }

  lemma LeftOversAfter(slots: seq<Pool>, n: nat, k: nat)
    requires k < n <= |slots| && LeftOversUnusable(slots, n) && slots[k].enabled != POOL_ENABLED
    ensures LeftOversUnusable(Vacated(slots, n, k), n - 1)
  {
    var t := Vacated(slots, n, k);
    forall i | n - 1 <= i < |t| ensures t[i] in t[..n - 1] || t[i].enabled != POOL_ENABLED {
      if i == n - 1 {
        assert k < n - 1 ==> t[..n - 1][k] == t[i];
      } else if slots[i].enabled == POOL_ENABLED {
        var j :| 0 <= j < n && slots[j] == slots[i];
        assert t[..n - 1][if j == n - 1 then k else j] == t[i];
      }
    }
  }

  // The list after the last entry has moved into slot `k`.
  function WithoutSlot<T>(s: seq<T>, k: nat): (t: seq<T>)
    requires k < |s|
    ensures |t| == |s| - 1 && forall i | 0 <= i < |t| :: t[i] == s[if i == k then |s| - 1 else i]
  {
    s[k := s[|s| - 1]][..|s| - 1]
  }
}
