/**
 The curl handle pool of cgminer.c. Every step below runs under pool_lock, so a run of the program is a
 sequence of such steps in any order; threads, clocks and limits are arbitrary.
 */
module CurlPool {
  import opened Common

  const EXPIRY := 300

  // A curl_ent in the ring, with the time it was last returned.
  datatype Entry = Entry(handle: nat, tv: int)

  // `curls` and `ring` are the pool's fields. The rest is what the world outside the pool looks like: handles
  // on loan, handles freed by reaping, how many were ever made, the threads blocked in pthread_cond_wait and
  // those that have been woken but have not taken the lock yet.
  datatype State = State(curls: int, ring: seq<Entry>, lent: set<nat>, freed: set<nat>, made: nat,
                         asleep: set<nat>, woken: set<nat>)

  datatype Event =
    | Pop(thread: nat, limit: int)   // pop_curl_entry from its start, or from `retry` for a woken thread
    | Spurious(thread: nat)          // pthread_cond_wait may return by itself
    | Push(handle: nat, now: int)
    | Reap(now: int)

  function Handles(ring: seq<Entry>): set<nat> {
    if ring == [] then {} else {ring[0].handle} + Handles(ring[1..])
  }

  predicate DistinctHandles(ring: seq<Entry>) {
    ring == [] || (ring[0].handle !in Handles(ring[1..]) && DistinctHandles(ring[1..]))
  }

  // ---------------------------------------------------------------- the steps

  predicate MustWait(s: State, limit: int) { s.curls != 0 && s.ring == [] && s.curls >= limit }

  predicate MustRecruit(s: State) { s.curls == 0 || s.ring == [] }

  // recruit_curl: list_add puts the new handle at the head.
  function Recruited(ring: seq<Entry>, made: nat): seq<Entry> { [Entry(made, 0)] + ring }

  // The thread that runs no longer waits for the lock.
  function DoPop(s: State, thread: nat, limit: int): State {
    if MustWait(s, limit) then
      State(s.curls, s.ring, s.lent, s.freed, s.made, s.asleep + {thread}, s.woken - {thread})
    else if MustRecruit(s) then
      var r := Recruited(s.ring, s.made);
      State(s.curls + 1, r[1..], s.lent + {r[0].handle}, s.freed, s.made + 1, s.asleep, s.woken - {thread})
    else
      State(s.curls, s.ring[1..], s.lent + {s.ring[0].handle}, s.freed, s.made, s.asleep, s.woken - {thread})
  }

  // What a pop that need not wait returns.
  function Popped(s: State): nat { if MustRecruit(s) then s.made else s.ring[0].handle }

  // list_add_tail, and the broadcast wakes every sleeper.
  function DoPush(s: State, handle: nat, now: int): State {
    State(s.curls, s.ring + [Entry(handle, now)], s.lent - {handle}, s.freed, s.made, {}, s.woken + s.asleep)
  }

  predicate Expired(e: Entry, now: int) { now - e.tv > EXPIRY }

  // What the loop of reap_curl leaves of the ring.
  function Remaining(curls: int, ring: seq<Entry>, now: int): seq<Entry> {
    if ring == [] || curls < 2 then ring
    else if Expired(ring[0], now) then Remaining(curls - 1, ring[1..], now)
    else [ring[0]] + Remaining(curls, ring[1..], now)
  }

  function ReapTo(s: State, r: seq<Entry>): State {
    State(s.curls - (|s.ring| - |r|), r, s.lent, s.freed + (Handles(s.ring) - Handles(r)), s.made, s.asleep, s.woken)
  }

  function DoReap(s: State, now: int): State { ReapTo(s, Remaining(s.curls, s.ring, now)) }

  // A thread blocked in pthread_cond_wait cannot start a pop, and only a handle on loan can be returned.
  function Step(s: State, e: Event): State {
    match e
    case Pop(thread, limit) => if thread in s.asleep then s else DoPop(s, thread, limit)
    case Spurious(thread) =>
      if thread in s.asleep then
        State(s.curls, s.ring, s.lent, s.freed, s.made, s.asleep - {thread}, s.woken + {thread})
      else s
    case Push(handle, now) => if handle in s.lent then DoPush(s, handle, now) else s
    case Reap(now) => DoReap(s, now)
  }

  const START := State(0, [], {}, {}, 0, {}, {})

  function Run(es: seq<Event>): State {
    if es == [] then START else Step(Run(es[..|es| - 1]), es[|es| - 1])
  }

  // ---------------------------------------------------------------- the invariant

  // The handles made so far: they are numbered from 0.
  function UpTo(n: nat): (r: set<nat>)
    ensures forall h | h in r :: h < n
  {
    if n == 0 then {} else UpTo(n - 1) + {n - 1}
  }

  ghost predicate Accounted(curls: int, ring: seq<Entry>, lent: set<nat>, freed: set<nat>, made: nat) {
    // curls counts exactly the handles that exist, idle or lent
    && curls == |ring| + |lent|
    // every handle ever made is idle, lent or freed, and only one of the three
    && DistinctHandles(ring)
    && Handles(ring) + lent + freed == UpTo(made)
    && Handles(ring) !! lent && Handles(ring) !! freed && lent !! freed
  }

  ghost predicate Inv(s: State) {
    && Accounted(s.curls, s.ring, s.lent, s.freed, s.made)
    // nobody sleeps while a handle is idle, and some handle is out whose return will wake the sleepers
    && (s.asleep != {} ==> s.ring == [] && s.lent != {})
    && s.asleep !! s.woken
  }

  lemma {:induction false} HandlesSnoc(ring: seq<Entry>, e: Entry)
    requires DistinctHandles(ring) && e.handle !in Handles(ring)
    ensures DistinctHandles(ring + [e]) && Handles(ring + [e]) == Handles(ring) + {e.handle}
    decreases |ring|
  {
    if ring == [] {
      assert [e][1..] == [];
    } else {
      HandlesSnoc(ring[1..], e);
      assert (ring + [e])[1..] == ring[1..] + [e];
    }
  }

  // Reaping keeps order and distinctness, and never takes the last handle.
  lemma {:induction false} RemainingIsPart(curls: int, ring: seq<Entry>, now: int)
    requires DistinctHandles(ring)
    ensures |Remaining(curls, ring, now)| <= |ring|
    ensures DistinctHandles(Remaining(curls, ring, now)) && Handles(Remaining(curls, ring, now)) <= Handles(ring)
    ensures curls >= 1 ==> curls - (|ring| - |Remaining(curls, ring, now)|) >= 1
    ensures curls < 1 ==> Remaining(curls, ring, now) == ring
    decreases |ring|
  {
    if ring != [] && curls >= 2 {
      if Expired(ring[0], now) {
        RemainingIsPart(curls - 1, ring[1..], now);
      } else {
        RemainingIsPart(curls, ring[1..], now);
        assert ([ring[0]] + Remaining(curls, ring[1..], now))[1..] == Remaining(curls, ring[1..], now);
      }
    }
  }

  lemma AccountTake(curls: int, ring: seq<Entry>, lent: set<nat>, freed: set<nat>, made: nat)
    requires Accounted(curls, ring, lent, freed, made) && ring != []
    ensures Accounted(curls, ring[1..], lent + {ring[0].handle}, freed, made)
  {
  }

  lemma AccountRecruit(curls: int, lent: set<nat>, freed: set<nat>, made: nat)
    requires Accounted(curls, [], lent, freed, made)
    ensures Accounted(curls + 1, [Entry(made, 0)], lent, freed, made + 1)
  {
    var r := [Entry(made, 0)];
    assert r[1..] == [];
    assert Handles(r) == {made} && Handles([]) == {};
  }

  lemma AccountPush(curls: int, ring: seq<Entry>, lent: set<nat>, freed: set<nat>, made: nat, e: Entry)
    requires Accounted(curls, ring, lent, freed, made) && e.handle in lent
    ensures Accounted(curls, ring + [e], lent - {e.handle}, freed, made)
  {
    hide Handles, DistinctHandles, UpTo;
    assert lent == lent - {e.handle} + {e.handle};
    HandlesSnoc(ring, e);
  }

  lemma AccountReap(s: State, r: seq<Entry>)
    requires Accounted(s.curls, s.ring, s.lent, s.freed, s.made)
    requires DistinctHandles(r) && Handles(r) <= Handles(s.ring)
    ensures Accounted(ReapTo(s, r).curls, r, s.lent, ReapTo(s, r).freed, s.made)
  {
    hide Handles, DistinctHandles, UpTo;
  }

  lemma Counted(s: State)
    requires Inv(s)
    ensures s.curls == |s.ring| + |s.lent|
  {
  }

  lemma WaitInv(s: State, thread: nat, limit: int)
    requires Inv(s) && MustWait(s, limit)
    ensures Inv(DoPop(s, thread, limit))
  {
    hide Accounted, Handles;
    Counted(s);
  }

  lemma RecruitInv(s: State, thread: nat, limit: int)
    requires Inv(s) && !MustWait(s, limit) && MustRecruit(s)
    ensures Inv(DoPop(s, thread, limit))
  {
    hide Accounted, Handles, UpTo;
    Counted(s);
    var r := Recruited(s.ring, s.made);
    assert s.ring == [] && r == [Entry(s.made, 0)];
    AccountRecruit(s.curls, s.lent, s.freed, s.made);
    AccountTake(s.curls + 1, r, s.lent, s.freed, s.made + 1);
  }

  lemma TakeInv(s: State, thread: nat, limit: int)
    requires Inv(s) && !MustWait(s, limit) && !MustRecruit(s)
    ensures Inv(DoPop(s, thread, limit))
  {
    hide Accounted, Handles;
    AccountTake(s.curls, s.ring, s.lent, s.freed, s.made);
  }

  lemma PushInv(s: State, handle: nat, now: int)
    requires Inv(s) && handle in s.lent
    ensures Inv(DoPush(s, handle, now))
  {
    hide Accounted, Handles;
    AccountPush(s.curls, s.ring, s.lent, s.freed, s.made, Entry(handle, now));
  }

  lemma ReapInv(s: State, now: int)
    requires Inv(s)
    ensures Inv(DoReap(s, now))
  {
    RemainingIsPart(s.curls, s.ring, now);
    AccountReap(s, Remaining(s.curls, s.ring, now));
    assert s.ring == [] ==> Remaining(s.curls, s.ring, now) == [];
    hide Accounted, Handles, Remaining, UpTo, DistinctHandles;
  }

  lemma StepInv(s: State, e: Event)
    requires Inv(s)
    ensures Inv(Step(s, e))
  {
    hide Accounted, DoPop, DoPush, DoReap;
    match e {
      case Pop(thread, limit) =>
        if thread !in s.asleep {
          if MustWait(s, limit) {
            WaitInv(s, thread, limit);
          } else if MustRecruit(s) {
            RecruitInv(s, thread, limit);
          } else {
            TakeInv(s, thread, limit);
          }
        }
      case Spurious(thread) =>
      case Push(handle, now) =>
        if handle in s.lent {
          PushInv(s, handle, now);
        }
      case Reap(now) =>
        ReapInv(s, now);
    }
  }

  lemma StepBounded(s: State, e: Event, bound: int)
    requires Inv(s) && s.curls <= bound && 1 <= bound
    requires e.Pop? ==> e.limit <= bound
    ensures Step(s, e).curls <= bound
  {
    if e.Reap? {
      RemainingIsPart(s.curls, s.ring, e.now);
    }
    hide Accounted, Handles, Remaining;
  }

  // Whatever the interleaving.
  lemma {:induction false} EveryRun(es: seq<Event>)
    ensures Inv(Run(es))
    decreases |es|
  {
    if es != [] {
      EveryRun(es[..|es| - 1]);
      StepInv(Run(es[..|es| - 1]), es[|es| - 1]);
    }
  }

  // With no limit above `limit`, the pool never owns more than that many handles, but always may own one.
  lemma {:induction false} EveryRunIsBounded(es: seq<Event>, limit: int)
    requires forall i | 0 <= i < |es| && es[i].Pop? :: es[i].limit <= limit
    ensures Run(es).curls <= if limit < 1 then 1 else limit
    decreases |es|
  {
    hide Inv, Step;
    if es != [] {
      var n := |es| - 1;
      assert forall i | 0 <= i < n :: es[..n][i] == es[i];
      EveryRunIsBounded(es[..n], limit);
      EveryRun(es[..n]);
      StepBounded(Run(es[..n]), es[n], if limit < 1 then 1 else limit);
    }
  }

  ghost predicate LimitIs(es: seq<Event>, limit: int) {
    forall i | 0 <= i < |es| && es[i].Pop? :: es[i].limit == limit
  }

  lemma FirstPopMakesOne(thread: nat, limit: int)
    ensures Run([Pop(thread, limit)]).curls == 1
  {
    var es := [Pop(thread, limit)];
    assert es[..0] == [] && es[|es| - 1] == Pop(thread, limit);
  }

  // A pool keeps its limit in every run exactly when the limit allows one handle: the first pop makes one
  // whatever the limit is.
  lemma LimitKeptExactly(limit: int)
    ensures (forall es: seq<Event> | LimitIs(es, limit) :: Run(es).curls <= limit) <==> limit >= 1
  {
    if limit >= 1 {
      forall es: seq<Event> | LimitIs(es, limit) ensures Run(es).curls <= limit {
        EveryRunIsBounded(es, limit);
      }
    } else {
      FirstPopMakesOne(0, limit);
      assert LimitIs([Pop(0, limit)], limit);
    }
  }

  // ---------------------------------------------------------------- what the steps mean for the threads

  // A pop either waits or hands out exactly one handle, one that nobody holds and that was never freed.
  lemma PopLends(s: State, thread: nat, limit: int)
    requires Inv(s) && thread !in s.asleep
    ensures MustWait(s, limit) ==> DoPop(s, thread, limit).lent == s.lent && thread in DoPop(s, thread, limit).asleep
    ensures !MustWait(s, limit) ==>
      && Popped(s) !in s.lent && Popped(s) !in s.freed
      && DoPop(s, thread, limit).lent == s.lent + {Popped(s)} && DoPop(s, thread, limit).asleep == s.asleep
  {
    if !MustWait(s, limit) && s.curls != 0 && s.ring != [] {
    }
  }

  // In any reachable state a sleeper's wait ends with the next return of a handle: every sleeper is woken,
  // and the first thread to get the lock, with any limit, receives a handle that is idle.
  lemma ReturnEndsWait(es: seq<Event>, handle: nat, now: int, thread: nat, limit: int)
    requires Run(es).asleep != {}
    ensures Run(es).lent != {}
    ensures handle in Run(es).lent ==>
      var s := DoPush(Run(es), handle, now);
      && s.asleep == {} && Run(es).asleep <= s.woken
      && !MustWait(s, limit) && Popped(s) == handle && handle in DoPop(s, thread, limit).lent
  {
    EveryRun(es);
    if handle in Run(es).lent {
      EveryRun(es + [Push(handle, now)]);
      assert (es + [Push(handle, now)])[..|es|] == es;
    }
  }

  // A handle waits its turn: handles come back out in the order they were returned.
  ghost predicate Aged(ring: seq<Entry>, now: int) {
    && (forall i, j | 0 <= i < j < |ring| :: ring[i].tv <= ring[j].tv)
    && (forall i | 0 <= i < |ring| :: ring[i].tv <= now)
  }

  function ExpiredCount(ring: seq<Entry>, now: int): (n: nat)
    ensures n <= |ring|
  {
    if ring == [] then 0 else ExpiredCount(ring[1..], now) + if Expired(ring[0], now) then 1 else 0
  }

  // When the clock never runs backwards the ring is ordered by age, and reaping drops the longest idle
  // handles: all that expired, save that one handle in all is kept.
  lemma {:induction false} ReapDropsOldest(curls: int, ring: seq<Entry>, now: int)
    requires Aged(ring, now) && 1 <= curls && |ring| <= curls
    ensures var n := ExpiredCount(ring, now);
      Remaining(curls, ring, now) == ring[if n <= curls - 1 then n else curls - 1..]
    decreases |ring|
  {
    if ring != [] {
      var tail := ring[1..];
      assert forall i | 0 <= i < |tail| :: tail[i] == ring[i + 1];
      if curls >= 2 {
        if Expired(ring[0], now) {
          ReapDropsOldest(curls - 1, tail, now);
        } else {
          NoneExpired(ring, now);
          ReapDropsOldest(curls, tail, now);
        }
      }
    }
  }

  lemma {:induction false} NoneExpired(ring: seq<Entry>, now: int)
    requires forall i | 0 <= i < |ring| :: !Expired(ring[i], now)
    ensures ExpiredCount(ring, now) == 0
    decreases |ring|
  {
    if ring != [] {
      assert forall i | 0 <= i < |ring| - 1 :: ring[1..][i] == ring[i + 1];
      NoneExpired(ring[1..], now);
    }
  }

  // Whatever the order of the ring: a handle is dropped only when it has been idle for more than 300 seconds, and
  // one that has been is kept only when no second handle is left.
  lemma {:induction false} DroppedExactly(curls: int, ring: seq<Entry>, now: int)
    ensures var r := Remaining(curls, ring, now);
      && (forall e | e in ring && e !in r :: now - e.tv > 300)
      && (forall e | e in r :: e in ring && (now - e.tv <= 300 || curls - (|ring| - |r|) < 2))
    decreases |ring|
  {
    if ring != [] {
      assert ring == [ring[0]] + ring[1..];
      if curls >= 2 {
        DroppedExactly(if Expired(ring[0], now) then curls - 1 else curls, ring[1..], now);
      }
    }
  }

  function TimeOf(e: Event, before: int): int {
    match e
    case Push(_, now) => now
    case Reap(now) => now
    case _ => before
  }

  // The clock after a run that started it at 0.
  function Clock(es: seq<Event>): int {
    if es == [] then 0 else TimeOf(es[|es| - 1], Clock(es[..|es| - 1]))
  }

  ghost predicate Monotone(es: seq<Event>) {
    es == [] || (Monotone(es[..|es| - 1]) && Clock(es[..|es| - 1]) <= Clock(es))
  }

  lemma {:induction false} RemainingAged(curls: int, ring: seq<Entry>, now: int)
    requires Aged(ring, now)
    ensures Aged(Remaining(curls, ring, now), now)
    ensures forall e | e in Remaining(curls, ring, now) :: e in ring
    decreases |ring|
  {
    if ring != [] && curls >= 2 {
      var tail := ring[1..];
      assert forall i | 0 <= i < |tail| :: tail[i] == ring[i + 1];
      if Expired(ring[0], now) {
        RemainingAged(curls - 1, tail, now);
      } else {
        RemainingAged(curls, tail, now);
        var r := Remaining(curls, tail, now);
        forall i | 0 <= i < |r| ensures ring[0].tv <= r[i].tv {
          assert r[i] in tail;
        }
      }
    }
  }

  lemma {:induction false} EveryRunIsAged(es: seq<Event>)
    requires Monotone(es)
    ensures Aged(Run(es).ring, Clock(es))
    decreases |es|
  {
    if es != [] {
      var n := |es| - 1;
      EveryRunIsAged(es[..n]);
      var s := Run(es[..n]);
      if es[n].Reap? {
        RemainingAged(s.curls, s.ring, es[n].now);
      }
      if es[n].Pop? {
        assert Recruited(s.ring, s.made)[1..] == s.ring;
      }
    }
  }

  // When the handle was last returned in a run.
  function LastReturn(es: seq<Event>, handle: nat): int {
    if es == [] then 0
    else
      var n := |es| - 1;
      if es[n].Push? && es[n].handle == handle && handle in Run(es[..n]).lent then es[n].now
      else LastReturn(es[..n], handle)
  }

  // Every idle handle is stamped with the time of its last return.
  lemma {:induction false} StampedWithLastReturn(es: seq<Event>)
    ensures forall e | e in Run(es).ring :: e.tv == LastReturn(es, e.handle)
    decreases |es|
  {
    if es != [] {
      var n := |es| - 1;
      var s := Run(es[..n]);
      StampedWithLastReturn(es[..n]);
      EveryRun(es[..n]);
      if es[n].Reap? {
        DroppedExactly(s.curls, s.ring, es[n].now);
      }
      forall e | e in Run(es).ring ensures e.tv == LastReturn(es, e.handle) {
        EntryStamped(es, e);
      }
    }
  }

  lemma EntryStamped(es: seq<Event>, e: Entry)
    requires es != [] && Inv(Run(es[..|es| - 1])) && e in Run(es).ring
    requires forall x | x in Run(es[..|es| - 1]).ring :: x.tv == LastReturn(es[..|es| - 1], x.handle)
    requires es[|es| - 1].Reap? ==> e in Run(es[..|es| - 1]).ring
    ensures e.tv == LastReturn(es, e.handle)
  {
    var n := |es| - 1;
    var s := Run(es[..n]);
    assert Run(es) == Step(s, es[n]);
    if es[n].Pop? {
      assert Recruited(s.ring, s.made)[1..] == s.ring;
    }
    if es[n].Push? && es[n].handle in s.lent && e in s.ring {
      HandleOf(s.ring, e);
    }
  }

  lemma {:induction false} HandleOf(ring: seq<Entry>, e: Entry)
    requires e in ring
    ensures e.handle in Handles(ring)
  {
    if ring[0] != e {
      HandleOf(ring[1..], e);
    }
  }

  // So a pop that makes no new handle lends the one that has been idle longest, when the clock never runs
  // backwards.
  lemma PopTakesLongestIdle(es: seq<Event>, limit: int)
    requires Monotone(es)
    ensures var s := Run(es);
      !MustWait(s, limit) && s.ring != [] ==>
        forall e | e in s.ring :: LastReturn(es, Popped(s)) <= LastReturn(es, e.handle)
  {
    EveryRunIsAged(es);
    EveryRun(es);
    StampedWithLastReturn(es);
    var s := Run(es);
    if s.ring != [] {
      assert s.ring[0] in s.ring && s.curls > 0;
    }
    hide Run, LastReturn;
  }

  // ---------------------------------------------------------------- the pool as the program updates it

  class HandlePool {
    var curls: int
    var ring: seq<Entry>
    var made: nat            // stands for curl_easy_init: the next new handle
    ghost var lent: set<nat>
    ghost var freed: set<nat>
    ghost var asleep: set<nat>
    ghost var woken: set<nat>

    ghost function View(): State
      reads this
    {
      State(curls, ring, lent, freed, made, asleep, woken)
    }

    ghost predicate Valid()
      reads this
    {
      Inv(View())
    }

    constructor ()
      ensures Valid() && View() == START
    {
      curls, ring, made := 0, [], 0;
      lent, freed, asleep, woken := {}, {}, {}, {};
      new;
      EveryRun([]);
    }

    // recruit_curl
    method RecruitCurl()
      modifies `curls, `ring, `made
      ensures curls == old(curls) + 1 && made == old(made) + 1
      ensures ring == Recruited(old(ring), old(made))
    {
      ring := [Entry(made, 0)] + ring;
      curls := curls + 1;
      made := made + 1;
    }

    // pop_curl_entry from `retry` until it leaves or waits: None is the wait.
    method PopCurlEntry(ghost thread: nat, limit: int) returns (ce: Option<nat>)
      requires Valid() && thread !in asleep
      modifies this
      ensures Valid() && View() == DoPop(old(View()), thread, limit)
      ensures ce == if MustWait(old(View()), limit) then None else Some(Popped(old(View())))
      ensures ce.None? <==> old(curls) > 0 && old(ring) == [] && old(curls) >= limit
      ensures old(ring) != [] ==> ce == Some(old(ring)[0].handle) && ring == old(ring)[1..] && curls == old(curls)
      ensures ce.Some? && old(ring) == [] ==> ce == Some(old(made)) && ring == [] && curls == old(curls) + 1
    {
      hide Inv;
      StepInv(View(), Pop(thread, limit));
      Counted(View());
      woken := woken - {thread};
      if curls == 0 {
        RecruitCurl();
      } else if |ring| == 0 {
        if curls >= limit {
          asleep := asleep + {thread};
          return None;
        }
        RecruitCurl();
      }
      ce := Some(ring[0].handle);
      lent := lent + {ring[0].handle};
      ring := ring[1..];
    }

    // push_curl_entry
    method PushCurlEntry(handle: nat, now: int)
      requires Valid() && handle in lent
      modifies this
      ensures Valid() && View() == DoPush(old(View()), handle, now)
      ensures ring == old(ring) + [Entry(handle, now)] && curls == old(curls) && asleep == {}
    {
      hide Inv;
      StepInv(View(), Push(handle, now));
      ring := ring + [Entry(handle, now)];
      lent := lent - {handle};
      asleep, woken := {}, woken + asleep;
    }

    // The loop of reap_curl.
    method ReapLoop(now: int) returns (reaped: nat)
      modifies `curls, `ring
      ensures ring == Remaining(old(curls), old(ring), now)
      ensures reaped == |old(ring)| - |ring| && curls == old(curls) - reaped
    {
      var i := 0;
      reaped := 0;
      while i < |ring|
        invariant 0 <= i <= |ring|
        invariant ring[..i] + Remaining(curls, ring[i..], now) == Remaining(old(curls), old(ring), now)
        invariant reaped + |ring| == |old(ring)| && curls == old(curls) - reaped
        decreases |ring| - i
      {
        if curls < 2 {
          break;
        }
        assert ring[i..][1..] == ring[i + 1..];
        if Expired(ring[i], now) {
          var rest := ring[i + 1..];
          ring := ring[..i] + rest;
          assert ring[i..] == rest;
          reaped := reaped + 1;
          curls := curls - 1;
        } else {
          i := i + 1;
        }
      }
      assert ring[..i] + ring[i..] == ring;
    }

    // reap_curl
    method ReapCurl(now: int) returns (reaped: nat)
      requires Valid()
      modifies this
      ensures Valid() && View() == DoReap(old(View()), now)
      ensures reaped == |old(ring)| - |ring| == old(curls) - curls
      ensures forall e | e in old(ring) && e !in ring :: now - e.tv > 300
      ensures forall e | e in ring :: e in old(ring) && (now - e.tv <= 300 || curls < 2)
    {
      DroppedExactly(curls, ring, now);
      hide Inv, Handles, Remaining;
      StepInv(View(), Reap(now));
      freed := freed + (Handles(ring) - Handles(Remaining(curls, ring, now)));
      reaped := ReapLoop(now);
    }
  }
}
