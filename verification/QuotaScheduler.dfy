/**
 The quota scheduler of select_pool (cgminer.c) on values: the usage counters of the live pools and the
 static rotation index.  PoolManager.SelectPool is proved to follow `Call`.
 */
module QuotaScheduler {
  import opened Common

  datatype Sched = Sched(used: seq<int>, rot: nat)
  {
    predicate Valid(n: nat) { |used| == n && rot < n }
  }

  // What one call did: the new state, the pool found by quota if any, and whether the round was restarted.
  datatype Outcome = Outcome(next: Sched, pick: Option<nat>, reset: bool)

  function Next(rot: nat, n: nat): nat { if rot + 1 >= n then 0 else rot + 1 }

  // Tests up to `left` pools from the rotation index on; every test charges the pool.
  function Probe(s: Sched, quota: seq<nat>, usable: seq<bool>, left: nat): (r: (Sched, Option<nat>))
    requires s.Valid(|quota|) && |usable| == |quota|
    ensures r.0.Valid(|quota|) && (r.1.Some? ==> r.1.value < |quota|)
    decreases left
  {
    if left == 0 then (s, None) else
      var p := s.rot;
      var charged := s.used[p := s.used[p] + 1];
      if s.used[p] < quota[p] && usable[p] then (Sched(charged, p), Some(p))
      else Probe(Sched(charged, Next(p, |quota|)), quota, usable, left - 1)
  }

  predicate Exhausted(used: seq<int>, quota: seq<nat>)
    requires |used| == |quota|
  {
    forall p | 0 <= p < |quota| :: used[p] >= quota[p]
  }

  function Zeros(n: nat): (z: seq<int>)
    ensures |z| == n && forall i | 0 <= i < n :: z[i] == 0
  {
    seq(n, _ => 0)
  }

  function Begin(s: Sched, quota: seq<nat>): (s': Sched)
    requires s.Valid(|quota|)
    ensures s'.Valid(|quota|)
  {
    if Exhausted(s.used, quota) then Sched(Zeros(|quota|), Next(s.rot, |quota|)) else s
  }

  function Call(s: Sched, quota: seq<nat>, usable: seq<bool>): (r: Outcome)
    requires s.Valid(|quota|) && |usable| == |quota|
    ensures r.next.Valid(|quota|) && (r.pick.Some? ==> r.pick.value < |quota|)
  {
    var (next, pick) := Probe(Begin(s, quota), quota, usable, |quota|);
    Outcome(next, pick, Exhausted(s.used, quota))
  }

  // ---------------------------------------------------------------- what is left of a round

  function Left(used: int, quota: nat): nat { if used < quota then quota - used else 0 }

  function Remaining(used: seq<int>, quota: seq<nat>): nat
    requires |used| == |quota|
  {
    if used == [] then 0
    else Remaining(used[..|used| - 1], quota[..|used| - 1]) + Left(used[|used| - 1], quota[|used| - 1])
  }

  function Sum(s: seq<nat>): nat {
    if s == [] then 0 else Sum(s[..|s| - 1]) + s[|s| - 1]
  }

  lemma {:induction false} RemainingMonotone(u: seq<int>, v: seq<int>, quota: seq<nat>)
    requires |u| == |v| == |quota|
    requires forall p | 0 <= p < |u| :: Left(v[p], quota[p]) <= Left(u[p], quota[p])
    ensures Remaining(v, quota) <= Remaining(u, quota)
    ensures (exists p :: 0 <= p < |u| && Left(v[p], quota[p]) < Left(u[p], quota[p])) ==>
      Remaining(v, quota) < Remaining(u, quota)
    decreases |u|
  {
    if u != [] {
      var n := |u| - 1;
      RemainingMonotone(u[..n], v[..n], quota[..n]);
      if p :| 0 <= p < |u| && Left(v[p], quota[p]) < Left(u[p], quota[p]) {
        if p < n { assert Left(v[..n][p], quota[..n][p]) < Left(u[..n][p], quota[..n][p]); }
      }
    }
  }

  lemma {:induction false} ExhaustedIsNoneLeft(used: seq<int>, quota: seq<nat>)
    requires |used| == |quota|
    ensures Exhausted(used, quota) <==> Remaining(used, quota) == 0
    decreases |used|
  {
    if used != [] {
      var n := |used| - 1;
      ExhaustedIsNoneLeft(used[..n], quota[..n]);
      if Exhausted(used[..n], quota[..n]) && used[n] >= quota[n] {
        forall p | 0 <= p < |quota| ensures used[p] >= quota[p] {
          if p < n { assert used[..n][p] >= quota[..n][p]; }
        }
      }
    }
  }

  lemma {:induction false} FreshRemaining(quota: seq<nat>)
    ensures Remaining(Zeros(|quota|), quota) == Sum(quota)
  {
    if quota != [] {
      FreshRemaining(quota[..|quota| - 1]);
      assert Zeros(|quota|)[..|quota| - 1] == Zeros(|quota| - 1);
    }
  }

  // ---------------------------------------------------------------- one pass of the rotation

  // How many tests after the first one pool `p` comes up.
  function Distance(rot: nat, p: nat, n: nat): (d: nat)
    requires rot < n && p < n
    ensures d < n && (rot + d == p || rot + d == p + n)
  {
    if p >= rot then p - rot else p + n - rot
  }

  predicate Eligible(s: Sched, quota: seq<nat>, usable: seq<bool>, p: nat)
    requires s.Valid(|quota|) && |usable| == |quota| && p < |quota|
  {
    s.used[p] < quota[p] && usable[p]
  }

  // Was pool `p` tested by a probe of `left` tests with result `pick`?
  predicate Tested(s: Sched, n: nat, left: nat, pick: Option<nat>, p: nat)
    requires s.Valid(n) && p < n && (pick.Some? ==> pick.value < n)
  {
    Distance(s.rot, p, n) < left && (pick.Some? ==> Distance(s.rot, p, n) <= Distance(s.rot, pick.value, n))
  }

  lemma DistanceAfter(rot: nat, p: nat, n: nat)
    requires rot < n && p < n
    ensures Distance(rot, rot, n) == 0
    ensures Distance(Next(rot, n), p, n) == if p == rot then n - 1 else Distance(rot, p, n) - 1
  {
  }

  // What the rest of a probe tests is what the whole probe tests behind its first slot.
  lemma TestedAfter(s: Sched, s1: Sched, n: nat, left: nat, pick: Option<nat>, p: nat)
    requires s.Valid(n) && s1.Valid(n) && s1.rot == Next(s.rot, n) && 0 < left <= n && p < n
    requires pick.Some? ==> pick.value < n && Distance(s1.rot, pick.value, n) < left - 1
    ensures pick.Some? ==> Distance(s.rot, pick.value, n) < left && pick.value != s.rot
    ensures Tested(s, n, left, pick, p) <==> p == s.rot || Tested(s1, n, left - 1, pick, p)
  {
    hide Distance, Next;
    DistanceAfter(s.rot, p, n);
    if pick.Some? {
      DistanceAfter(s.rot, pick.value, n);
    }
  }

  // Exactly the pools up to the pick are charged, once each, and the pick is the first eligible one.
  lemma {:induction false} ProbeEffect(s: Sched, quota: seq<nat>, usable: seq<bool>, left: nat)
    requires s.Valid(|quota|) && |usable| == |quota| && left <= |quota|
    ensures var (t, pick) := Probe(s, quota, usable, left);
      && (pick.Some? ==> Eligible(s, quota, usable, pick.value) && Distance(s.rot, pick.value, |quota|) < left)
      && (forall p | 0 <= p < |quota| ::
            t.used[p] == s.used[p] + if Tested(s, |quota|, left, pick, p) then 1 else 0)
      && (forall p | 0 <= p < |quota| ::
            Tested(s, |quota|, left, pick, p) && Eligible(s, quota, usable, p) ==> pick == Some(p))
    decreases left
  {
    if left > 0 && !Eligible(s, quota, usable, s.rot) {
      var n := |quota|;
      var s1 := Sched(s.used[s.rot := s.used[s.rot] + 1], Next(s.rot, n));
      ProbeEffect(s1, quota, usable, left - 1);
      var (t, pick) := Probe(s1, quota, usable, left - 1);
      assert (t, pick) == Probe(s, quota, usable, left);
      hide Distance, Next, Tested, Probe;
      forall p | 0 <= p < n
        ensures pick.Some? ==> Distance(s.rot, pick.value, n) < left && pick.value != s.rot
        ensures Tested(s, n, left, pick, p) <==> p == s.rot || Tested(s1, n, left - 1, pick, p)
      {
        TestedAfter(s, s1, n, left, pick, p);
      }
    }
  }

  // A probe that picks a pool leaves the index on it; one that picks none has moved on a slot per test.
  lemma {:induction false} ProbeEnds(s: Sched, quota: seq<nat>, usable: seq<bool>, left: nat)
    requires s.Valid(|quota|) && |usable| == |quota| && left <= |quota|
    ensures var (t, pick) := Probe(s, quota, usable, left);
      t.rot ==
        if pick.Some? then pick.value else if s.rot + left < |quota| then s.rot + left else s.rot + left - |quota|
    decreases left
  {
    if left > 0 {
      var charged := s.used[s.rot := s.used[s.rot] + 1];
      ProbeEnds(Sched(charged, Next(s.rot, |quota|)), quota, usable, left - 1);
    }
  }

  // What testing `left` slots in cyclic order from `first` on means: `pick` is the first of them that has
  // quota left and can be used, if any; every slot tested up to it is charged once, and no other.
  ghost predicate Tests(before: seq<int>, quota: seq<nat>, usable: seq<bool>, first: nat, left: nat, after: seq<int>,
                        pick: Option<nat>)
    requires |before| == |quota| == |usable| == |after| && first < |quota|
  {
    var n := |quota|;
    && (pick.Some? ==> pick.value < n && before[pick.value] < quota[pick.value] && usable[pick.value])
    && (pick.Some? ==> Distance(first, pick.value, n) < left)
    && (forall p | 0 <= p < n && Distance(first, p, n) < left && before[p] < quota[p] && usable[p] ::
          pick.Some? && Distance(first, pick.value, n) <= Distance(first, p, n))
    && forall p | 0 <= p < n ::
         var d := Distance(first, p, n);
         after[p] == before[p] + if d < left && (pick.Some? ==> d <= Distance(first, pick.value, n)) then 1 else 0
  }

  lemma ProbeTests(s: Sched, quota: seq<nat>, usable: seq<bool>, left: nat)
    requires s.Valid(|quota|) && |usable| == |quota| && left <= |quota|
    ensures var (t, pick) := Probe(s, quota, usable, left); Tests(s.used, quota, usable, s.rot, left, t.used, pick)
  {
    ProbeEffect(s, quota, usable, left);
    hide Probe;
    var (t, pick) := Probe(s, quota, usable, left);
    forall p | 0 <= p < |quota| && Distance(s.rot, p, |quota|) < left && s.used[p] < quota[p] && usable[p]
      ensures pick.Some? && Distance(s.rot, pick.value, |quota|) <= Distance(s.rot, p, |quota|)
    {
      assert Eligible(s, quota, usable, p);
      assert Tested(s, |quota|, left, pick, p) ==> pick == Some(p);
    }
  }

  // A call tests every slot once. It begins where the index stands, unless no slot has quota left: then the
  // counters are cleared, and it begins one slot further on.
  lemma CallTests(s: Sched, quota: seq<nat>, usable: seq<bool>)
    requires s.Valid(|quota|) && |usable| == |quota|
    ensures
      var o, n := Call(s, quota, usable), |quota|;
      var restart := forall p | 0 <= p < n :: s.used[p] >= quota[p];
      var first := if !restart then s.rot else if s.rot + 1 < n then s.rot + 1 else 0;
      && o.reset == restart && o.next.rot == (if o.pick.Some? then o.pick.value else first)
      && Tests(if restart then Zeros(n) else s.used, quota, usable, first, n, o.next.used, o.pick)
  {
    ProbeTests(Begin(s, quota), quota, usable, |quota|);
    ProbeEnds(Begin(s, quota), quota, usable, |quota|);
    hide Probe, Tests;
  }

  // A call that does not restart the round uses some of it up, whichever pools are usable.
  lemma CallProgress(s: Sched, quota: seq<nat>, usable: seq<bool>)
    requires s.Valid(|quota|) && |usable| == |quota|
    ensures var o := Call(s, quota, usable);
      !o.reset ==> Remaining(o.next.used, quota) < Remaining(s.used, quota)
  {
    var o := Call(s, quota, usable);
    if !o.reset {
      ProbeEffect(s, quota, usable, |quota|);
      var q :| 0 <= q < |quota| && s.used[q] < quota[q];
      var p := if o.pick.Some? then o.pick.value else q;
      assert Left(o.next.used[p], quota[p]) < Left(s.used[p], quota[p]);
      RemainingMonotone(s.used, o.next.used, quota);
    }
  }

  // With every pool usable a call hands out exactly one unit of the round.
  lemma CallAllUsable(s: Sched, quota: seq<nat>, usable: seq<bool>)
    requires s.Valid(|quota|) && usable == AllUsable(|quota|) && !Exhausted(s.used, quota)
    ensures var o := Call(s, quota, usable);
      && !o.reset && o.pick.Some?
      && (forall p | 0 <= p < |quota| ::
            Left(o.next.used[p], quota[p]) + (if o.pick == Some(p) then 1 else 0) == Left(s.used[p], quota[p]))
  {
    ProbeEffect(s, quota, usable, |quota|);
    var o := Call(s, quota, usable);
    var q :| 0 <= q < |quota| && s.used[q] < quota[q];
    assert Eligible(s, quota, usable, q);
    assert Tested(s, |quota|, |quota|, None, q);
  }

  function AllUsable(n: nat): (u: seq<bool>)
    ensures |u| == n && forall i | 0 <= i < n :: u[i]
  {
    seq(n, _ => true)
  }

  lemma {:induction false} RemainingOneLess(u: seq<int>, v: seq<int>, quota: seq<nat>, pick: nat)
    requires |u| == |v| == |quota| && pick < |u|
    requires forall p | 0 <= p < |u| :: Left(v[p], quota[p]) + (if p == pick then 1 else 0) == Left(u[p], quota[p])
    ensures Remaining(v, quota) + 1 == Remaining(u, quota)
    decreases |u|
  {
    var n := |u| - 1;
    if pick < n {
      RemainingOneLess(u[..n], v[..n], quota[..n], pick);
    } else {
      RemainingMonotone(u[..n], v[..n], quota[..n]);
      RemainingMonotone(v[..n], u[..n], quota[..n]);
    }
  }

  // ---------------------------------------------------------------- exact fairness

  function Bump(picks: seq<nat>, pick: Option<nat>): (b: seq<nat>)
    requires pick.Some? ==> pick.value < |picks|
    ensures |b| == |picks|
  {
    if pick.Some? then picks[pick.value := picks[pick.value] + 1] else picks
  }

  function NoPicks(n: nat): (z: seq<nat>)
    ensures |z| == n && forall i | 0 <= i < n :: z[i] == 0
  {
    seq(n, _ => 0)
  }

  // The state and the picks after `k` calls with every pool usable.
  function Calls(s: Sched, quota: seq<nat>, k: nat): (r: (Sched, seq<nat>))
    requires s.Valid(|quota|)
    ensures r.0.Valid(|quota|) && |r.1| == |quota|
  {
    if k == 0 then (s, NoPicks(|quota|)) else
      var (t, picks) := Calls(s, quota, k - 1);
      var o := Call(t, quota, AllUsable(|quota|));
      (o.next, Bump(picks, o.pick))
  }

  // Nothing is lost: what was picked and what is left make up the quota of every pool.
  ghost predicate Accounted(t: Sched, picks: seq<nat>, quota: seq<nat>, k: nat)
    requires t.Valid(|quota|) && |picks| == |quota|
  {
    && Remaining(t.used, quota) + k == Sum(quota)
    && forall p | 0 <= p < |quota| :: picks[p] + Left(t.used[p], quota[p]) == quota[p]
  }

  lemma CallAccounted(t: Sched, picks: seq<nat>, quota: seq<nat>, k: nat)
    requires t.Valid(|quota|) && |picks| == |quota| && k < Sum(quota)
    requires Accounted(t, picks, quota, k)
    ensures var o := Call(t, quota, AllUsable(|quota|));
      !o.reset && Accounted(o.next, Bump(picks, o.pick), quota, k + 1)
  {
    var usable := AllUsable(|quota|);
    var o := Call(t, quota, usable);
    ExhaustedIsNoneLeft(t.used, quota);
    CallAllUsable(t, quota, usable);
    RemainingOneLess(t.used, o.next.used, quota, o.pick.value);
  }

  lemma {:induction false} CallsSoFar(s: Sched, quota: seq<nat>, k: nat)
    requires s.Valid(|quota|) && s.used == Zeros(|quota|) && k <= Sum(quota)
    ensures Accounted(Calls(s, quota, k).0, Calls(s, quota, k).1, quota, k)
    decreases k
  {
    if k == 0 {
      FreshRemaining(quota);
    } else {
      CallsSoFar(s, quota, k - 1);
      var (t, picks) := Calls(s, quota, k - 1);
      CallAccounted(t, picks, quota, k - 1);
    }
  }

  // A round that starts with clean counters lasts exactly the sum of the quotas, hands every pool
  // exactly its quota, and the call after it is the first to restart the round.
  lemma ExactRound(s: Sched, quota: seq<nat>, k: nat)
    requires s.Valid(|quota|) && s.used == Zeros(|quota|) && k <= Sum(quota)
    ensures var (t, picks) := Calls(s, quota, k);
      && (Call(t, quota, AllUsable(|quota|)).reset <==> k == Sum(quota))
      && (k == Sum(quota) ==> picks == quota)
  {
    CallsSoFar(s, quota, k);
    var (t, picks) := Calls(s, quota, k);
    ExhaustedIsNoneLeft(t.used, quota);
    if k == Sum(quota) {
      assert forall p | 0 <= p < |quota| :: picks[p] == quota[p];
    }
  }

  // The slots between `start` and the index have nothing left.
  ghost predicate UsedUpTo(start: nat, t: Sched, quota: seq<nat>)
    requires t.Valid(|quota|) && start < |quota|
  {
    var n := |quota|;
    forall p | 0 <= p < n && Distance(start, p, n) < Distance(start, t.rot, n) :: t.used[p] >= quota[p]
  }

  lemma CallMovesOn(start: nat, t: Sched, quota: seq<nat>)
    requires t.Valid(|quota|) && start < |quota| && UsedUpTo(start, t, quota) && !Exhausted(t.used, quota)
    ensures var n, o := |quota|, Call(t, quota, AllUsable(|quota|));
      && o.pick == Some(o.next.rot) && UsedUpTo(start, o.next, quota)
      && Distance(start, t.rot, n) <= Distance(start, o.next.rot, n)
  {
    CallTests(t, quota, AllUsable(|quota|));
    CallAllUsable(t, quota, AllUsable(|quota|));
    hide Call, Probe;
  }

  // Within a clean round the index only moves forward, so every pool is given its whole quota in one go, and
  // the pools have their turns in the order of their slots from where the index stood.
  lemma {:induction false} RoundInOrder(s: Sched, quota: seq<nat>, k: nat)
    requires s.Valid(|quota|) && s.used == Zeros(|quota|) && k < Sum(quota)
    ensures var t, u, n := Calls(s, quota, k).0, Calls(s, quota, k + 1).0, |quota|;
      && UsedUpTo(s.rot, u, quota) && Distance(s.rot, t.rot, n) <= Distance(s.rot, u.rot, n)
      && Call(t, quota, AllUsable(n)).pick == Some(u.rot)
    decreases k
  {
    var t := Calls(s, quota, k).0;
    if k > 0 {
      RoundInOrder(s, quota, k - 1);
    }
    ExactRound(s, quota, k);
    CallMovesOn(s.rot, t, quota);
  }

  // A restarting call behaves like the first call of a round with clean counters.
  lemma RestartBeginsCleanRound(s: Sched, quota: seq<nat>, usable: seq<bool>)
    requires s.Valid(|quota|) && |usable| == |quota| && Exhausted(s.used, quota) && Sum(quota) > 0
    ensures Begin(s, quota).used == Zeros(|quota|)
    ensures var again := Call(Begin(s, quota), quota, usable);
      Call(s, quota, usable) == Outcome(again.next, again.pick, true) && !again.reset
  {
    FreshRemaining(quota);
    ExhaustedIsNoneLeft(Zeros(|quota|), quota);
  }

  // ---------------------------------------------------------------- any usability, with refunds

  // A call under some usability, or discard_work giving back one unit of a pool.
  datatype Event = Select(usable: seq<bool>) | Refund(pool: nat)

  // The scheduler with what the current round has handed out and taken back.
  datatype Round = Round(s: Sched, picks: seq<nat>, refunds: seq<nat>, calls: nat)

  predicate Fits(e: Event, n: nat) {
    match e
    case Select(usable) => |usable| == n
    case Refund(p) => p < n
  }

  predicate ValidRound(r: Round, n: nat) { r.s.Valid(n) && |r.picks| == n && |r.refunds| == n }

  function Happen(r: Round, quota: seq<nat>, e: Event): (r': Round)
    requires ValidRound(r, |quota|) && Fits(e, |quota|)
    ensures ValidRound(r', |quota|)
  {
    match e
    case Select(usable) =>
      var o := Call(r.s, quota, usable);
      if o.reset then Round(o.next, Bump(NoPicks(|quota|), o.pick), NoPicks(|quota|), 1)
      else Round(o.next, Bump(r.picks, o.pick), r.refunds, r.calls + 1)
    case Refund(p) =>
      Round(Sched(r.s.used[p := r.s.used[p] - 1], r.s.rot), r.picks, r.refunds[p := r.refunds[p] + 1], r.calls)
  }

  // A unit given back can be handed out again: once the round is used up, one refund to a pool that has had its
  // quota lets a call pick that pool, without a restart.
  lemma RefundHandedOut(r: Round, quota: seq<nat>, p: nat)
    requires ValidRound(r, |quota|) && p < |quota| && Exhausted(r.s.used, quota) && r.s.used[p] == quota[p]
    ensures var t := Happen(r, quota, Refund(p)).s;
      var o := Call(t, quota, AllUsable(|quota|));
      !o.reset && o.pick == Some(p)
  {
    var t := Happen(r, quota, Refund(p)).s;
    assert t.used[p] < quota[p];
    CallTests(t, quota, AllUsable(|quota|));
    CallAllUsable(t, quota, AllUsable(|quota|));
    hide Probe;
  }

  function Run(r: Round, quota: seq<nat>, events: seq<Event>): (r': Round)
    requires ValidRound(r, |quota|) && forall i | 0 <= i < |events| :: Fits(events[i], |quota|)
    ensures ValidRound(r', |quota|)
  {
    if events == [] then r
    else Happen(Run(r, quota, events[..|events| - 1]), quota, events[|events| - 1])
  }

  function Start(n: nat): Round { Round(Sched(Zeros(n), 0), NoPicks(n), NoPicks(n), 0) }

  ghost predicate PicksWithinQuota(r: Round, quota: seq<nat>)
    requires ValidRound(r, |quota|)
  {
    forall p | 0 <= p < |quota| ::
      r.picks[p] <= r.s.used[p] + r.refunds[p] && r.picks[p] <= quota[p] + r.refunds[p]
  }

  ghost predicate CallsWithinQuota(r: Round, quota: seq<nat>)
    requires ValidRound(r, |quota|)
  {
    r.calls + Remaining(r.s.used, quota) <= Sum(quota) + Sum(r.refunds) + (if Sum(quota) == 0 then 1 else 0)
  }

  lemma {:induction false} SumBump(s: seq<nat>, p: nat)
    requires p < |s|
    ensures Sum(s[p := s[p] + 1]) == Sum(s) + 1
    decreases |s|
  {
    var n := |s| - 1;
    var t := s[p := s[p] + 1];
    if p < n {
      assert t[..n] == s[..n][p := s[..n][p] + 1];
      SumBump(s[..n], p);
    } else {
      assert t[..n] == s[..n];
    }
  }

  lemma {:induction false} SumNoPicks(n: nat)
    ensures Sum(NoPicks(n)) == 0
  {
    if n > 0 {
      assert NoPicks(n)[..n - 1] == NoPicks(n - 1);
      SumNoPicks(n - 1);
    }
  }

  lemma {:induction false} RefundRemaining(used: seq<int>, quota: seq<nat>, p: nat)
    requires |used| == |quota| && p < |quota|
    ensures Remaining(used[p := used[p] - 1], quota) <= Remaining(used, quota) + 1
    decreases |used|
  {
    var n := |used| - 1;
    var v := used[p := used[p] - 1];
    if p < n {
      assert v[..n] == used[..n][p := used[..n][p] - 1];
      RefundRemaining(used[..n], quota[..n], p);
    } else {
      assert v[..n] == used[..n];
    }
  }

  lemma PicksStayWithinQuota(r: Round, quota: seq<nat>, e: Event)
    requires ValidRound(r, |quota|) && Fits(e, |quota|) && PicksWithinQuota(r, quota)
    ensures PicksWithinQuota(Happen(r, quota, e), quota)
  {
    if e.Select? {
      ProbeEffect(Begin(r.s, quota), quota, e.usable, |quota|);
    }
  }

  lemma CallsStayWithinQuota(r: Round, quota: seq<nat>, e: Event)
    requires ValidRound(r, |quota|) && Fits(e, |quota|) && CallsWithinQuota(r, quota)
    ensures CallsWithinQuota(Happen(r, quota, e), quota)
  {
    hide Probe, Remaining, Sum;
    match e
    case Select(usable) =>
      var s, o := Begin(r.s, quota), Call(r.s, quota, usable);
      if o.reset {
        FreshRemaining(quota);
        SumNoPicks(|quota|);
        ExhaustedIsNoneLeft(s.used, quota);
        if Sum(quota) == 0 {
          ProbeEffect(s, quota, usable, |quota|);
          RemainingMonotone(s.used, o.next.used, quota);
        } else {
          CallProgress(s, quota, usable);
        }
      } else {
        CallProgress(r.s, quota, usable);
      }
    case Refund(p) =>
      SumBump(r.refunds, p);
      RefundRemaining(r.s.used, quota, p);
  }

  // In every run a round returns a pool at most as often as its quota plus the units given back to it,
  // and a round lasts at most the sum of the quotas plus the units given back.
  lemma {:induction false} EveryRunWithinQuota(quota: seq<nat>, events: seq<Event>)
    requires forall i | 0 <= i < |events| :: Fits(events[i], |quota|)
    requires |quota| > 0
    ensures PicksWithinQuota(Run(Start(|quota|), quota, events), quota)
    ensures CallsWithinQuota(Run(Start(|quota|), quota, events), quota)
    decreases |events|
  {
    if events == [] {
      FreshRemaining(quota);
      SumNoPicks(|quota|);
    } else {
      var before, e := Run(Start(|quota|), quota, events[..|events| - 1]), events[|events| - 1];
      EveryRunWithinQuota(quota, events[..|events| - 1]);
      PicksStayWithinQuota(before, quota, e);
      CallsStayWithinQuota(before, quota, e);
    }
  }
}
