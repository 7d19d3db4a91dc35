/**
 clone_work of cgminer.c: the master item is rolled on while clones of its earlier states are staged.
 */
module CloneWork {

  const NTIME_RANGE: nat := 0x1_0000_0000
  const MAX_ROLLS := 7000

  type Int32 = x: int | -0x8000_0000 <= x < 0x8000_0000

  // total_work; ids are handed out by total_work_inc, which returns the count before the step.
  class WorkCounter {
    var total: nat

    method Inc() returns (id: nat)
      modifies this
      ensures id == old(total) && total == old(total) + 1
    {
      id := total;
      total := total + 1;
    }
  }

  class Work {
    var id: nat
    var ntime: nat
    var rolls: int
    var rolltime: int
    var clone: bool
    var stratum: bool
    var hasPool: bool
    var longpoll: bool
    var mandatory: bool
    var tvStaged: int

    constructor Copy(base: Work, id: nat)
      ensures this.id == id
      ensures ntime == base.ntime && rolls == base.rolls && rolltime == base.rolltime && tvStaged == base.tvStaged
      ensures clone == base.clone && stratum == base.stratum && hasPool == base.hasPool
      ensures longpoll == base.longpoll && mandatory == base.mandatory
    {
      this.id := id;
      ntime, rolls, rolltime, tvStaged := base.ntime, base.rolls, base.rolltime, base.tvStaged;
      clone, stratum, hasPool := base.clone, base.stratum, base.hasPool;
      longpoll, mandatory := base.longpoll, base.mandatory;
    }

    // The part of can_roll that does not depend on time.
    predicate CanRoll()
      reads `stratum, `hasPool, `rolltime, `clone, `rolls
    {
      Master() && rolls < MAX_ROLLS
    }

    predicate Master()
      reads `stratum, `hasPool, `rolltime, `clone
    {
      !stratum && hasPool && rolltime != 0 && !clone
    }

    // roll_work
    method Roll(counter: WorkCounter)
      modifies `ntime, `rolls, `id, counter
      ensures ntime == (old(ntime) + 1) % 0x1_0000_0000 && rolls == old(rolls) + 1
      ensures id == old(counter.total) && counter.total == old(counter.total) + 1
    {
      ntime := (ntime + 1) % NTIME_RANGE;
      rolls := rolls + 1;
      id := counter.Inc();
    }

    // make_clone
    method MakeClone(counter: WorkCounter) returns (c: Work)
      modifies counter
      ensures fresh(c) && c.clone && c.ntime == ntime && c.rolls == rolls
      ensures c.id == old(counter.total) && counter.total == old(counter.total) + 1
      ensures c.tvStaged == tvStaged - 1 && !c.longpoll && !c.mandatory
    {
      var number := counter.Inc();
      c := new Work.Copy(this, number);
      c.clone := true;
      c.longpoll := false;
      c.mandatory := false;
      c.tvStaged := c.tvStaged - 1;
    }
  }

  // How many rounds the loop makes when `willing(i)` is what stale_work and should_roll answer in round i.
  function Rounds(rolls: int, master: bool, willing: nat -> bool, left: int, i: nat): (k: nat)
    ensures k <= if left < 0 then 0 else left
    decreases if left < 0 then 0 else left
  {
    if left < 1 || !master || rolls >= MAX_ROLLS || !willing(i) then 0
    else 1 + Rounds(rolls + 2, master, willing, left - 1, i + 1)
  }

  // How far ahead of the start the i-th of the k staged clones is.
  function Offset(i: nat): nat { if i == 0 then 0 else 2 * i - 1 }

  function NtimeAt(start: nat, offset: nat): nat { (start + offset) % NTIME_RANGE }

  // The i-th of the clones made, counted from the one made before the loop, when the master started at
  // `start` and the ids at `ids`.
  ghost predicate IsClone(c: Work, i: nat, start: nat, ids: nat)
    reads c
  {
    c.clone && c.ntime == NtimeAt(start, Offset(i)) && c.id == if i == 0 then ids else ids + 3 * i - 1
  }

  // The first clone has the second the master came with; after that the master is rolled twice per round and
  // cloned in between. The master takes an id before and one after every such clone.
  lemma CloneMeans(c: Work, i: nat, start: nat, ids: nat)
    requires IsClone(c, i, start, ids)
    ensures c.clone && c.ntime == (start + if i == 0 then 0 else 2 * i - 1) % 0x1_0000_0000
    ensures c.id == ids + if i == 0 then 0 else 3 * i - 1
  {
  }

  // What the id counter has reached after k rounds.
  function Issued(ids: nat, k: nat): nat { ids + 3 * k + 1 }

  // Rounds i, i + 1, ... each find the time tests willing and the master with rolls to spare.
  ghost predicate Allowed(rolls: int, willing: nat -> bool, i: nat, k: nat) {
    forall j: nat | i <= j < i + k :: willing(j) && rolls + 2 * (j - i) < 7000
  }

  lemma AllowedBefore(rolls: int, willing: nat -> bool, i: nat, k: nat)
    requires willing(i) && rolls < 7000 && Allowed(rolls + 2, willing, i + 1, k)
    ensures Allowed(rolls, willing, i, k + 1)
  {
    forall j: nat | i <= j < i + (k + 1) ensures willing(j) && rolls + 2 * (j - i) < 7000 {
      if j > i { assert willing(j) && rolls + 2 + 2 * (j - (i + 1)) < 7000; }
    }
  }

  // The loop goes on while rounds are left, the item is a master that may still be rolled and the time tests
  // allow it, and no longer.
  lemma {:induction false} RoundsExactly(rolls: int, master: bool, willing: nat -> bool, left: int, i: nat)
    ensures var k := Rounds(rolls, master, willing, left, i);
      && (k > 0 ==> master && k <= left)
      && Allowed(rolls, willing, i, k)
      && (master && k < left ==> rolls + 2 * k >= 7000 || !willing(i + k))
    decreases if left < 0 then 0 else left
  {
    if left >= 1 && master && rolls < MAX_ROLLS && willing(i) {
      RoundsExactly(rolls + 2, master, willing, left - 1, i + 1);
      AllowedBefore(rolls, willing, i, Rounds(rolls + 2, master, willing, left - 1, i + 1));
      hide Allowed;
    }
  }

  lemma RoundsStep(rolls: int, master: bool, willing: nat -> bool, left: int, i: nat)
    ensures Rounds(rolls, master, willing, left, i) ==
      if left > 0 && master && rolls < MAX_ROLLS && willing(i) then
        1 + Rounds(rolls + 2, master, willing, left - 1, i + 1)
      else 0
  {
  }

  lemma NtimeStep(start: nat, offset: nat)
    ensures (NtimeAt(start, offset) + 1) % NTIME_RANGE == NtimeAt(start, offset + 1)
  {
  }

  ghost predicate AreClones(s: seq<Work>, start: nat, ids: nat)
    reads s
  {
    forall i | 0 <= i < |s| :: IsClone(s[i], i, start, ids)
  }

  // Where the call stands once `staged` has been handed out and `c` is the clone to be staged next; the
  // master came with `start`, `rolls` and `id`, and the id counter stood at `ids`.
  ghost predicate Progress(work: Work, counter: WorkCounter, c: Work, staged: seq<Work>, start: nat, ids: nat,
                           rolls: int, id: nat)
    reads work, counter, c, staged
  {
    var k := |staged|;
    && c != work && IsClone(c, k, start, ids)
    && work !in staged && AreClones(staged, start, ids)
    && work.ntime == NtimeAt(start, 2 * k) && work.rolls == rolls + 2 * k
    && counter.total == Issued(ids, k) && work.id == if k == 0 then id else ids + 3 * k
  }

  // The body of the loop.
  method RollAndClone(work: Work, counter: WorkCounter, c: Work, staged: seq<Work>,
                      ghost start: nat, ghost ids: nat, ghost rolls: int, ghost id: nat)
      returns (next: Work, staged': seq<Work>)
    requires Progress(work, counter, c, staged, start, ids, rolls, id)
    modifies work`ntime, work`rolls, work`id, counter
    ensures staged' == staged + [c] && work.rolls == old(work.rolls) + 2
    ensures Progress(work, counter, next, staged', start, ids, rolls, id)
  {
    ghost var k := |staged|;
    NtimeStep(start, 2 * k);
    NtimeStep(start, 2 * k + 1);
    staged' := staged + [c];
    assert AreClones(staged', start, ids);
    hide NtimeAt;
    work.Roll(counter);
    next := work.MakeClone(counter);
    work.Roll(counter);
  }

  // The loop; `first` is the clone made before it.
  method RollLoop(work: Work, counter: WorkCounter, mrs: nat, willing: nat -> bool, first: Work)
      returns (c: Work, staged: seq<Work>)
    requires counter.total > 0 && Progress(work, counter, first, [], work.ntime, counter.total - 1, work.rolls, work.id)
    modifies work`ntime, work`rolls, work`id, counter
    ensures |staged| == Rounds(old(work.rolls), work.Master(), willing, mrs, 0)
    ensures Progress(work, counter, c, staged, old(work.ntime), old(counter.total) - 1, old(work.rolls), old(work.id))
  {
    hide Progress, Rounds;
    c, staged := first, [];
    ghost var start, ids, rolls, id := work.ntime, counter.total - 1, work.rolls, work.id;
    var left, round := mrs, 0;
    while left > 0 && work.CanRoll() && willing(round)
      invariant round == |staged| && work.rolls == rolls + 2 * round
      invariant round + Rounds(work.rolls, work.Master(), willing, left, round) ==
        Rounds(rolls, work.Master(), willing, mrs, 0)
      invariant Progress(work, counter, c, staged, start, ids, rolls, id)
      decreases left
    {
      RoundsStep(work.rolls, work.Master(), willing, left, round);
      left := left - 1;
      c, staged := RollAndClone(work, counter, c, staged, start, ids, rolls, id);
      round := round + 1;
    }
    RoundsStep(work.rolls, work.Master(), willing, left, round);
  }

  // ---------------------------------------------------------------- what one call produces

  // The seconds of everything one call produces: the staged clones, the returned clone, the master.
  function Produced(start: nat, k: nat, i: nat): nat
    requires i <= k + 1
  {
    NtimeAt(start, if i <= k then Offset(i) else 2 * k)
  }

  // No two of them work on the same second, wrap-around or not.
  lemma ProducedDistinct(start: nat, k: nat, i: nat, j: nat)
    requires start < NTIME_RANGE && 0 < k && i < j <= k + 1 && 2 * k < NTIME_RANGE
    ensures Produced(start, k, i) != Produced(start, k, j)
  {
    var a, b := if i <= k then Offset(i) else 2 * k, if j <= k then Offset(j) else 2 * k;
    assert a < b < NTIME_RANGE;
  }

  // The master is ahead of all the clones exactly when its own second does not wrap.
  lemma MasterIsGreatest(start: nat, k: nat)
    requires start < NTIME_RANGE && 0 < k && 2 * k < NTIME_RANGE
    ensures (forall i | 0 <= i <= k :: Produced(start, k, i) < Produced(start, k, k + 1)) <==>
      start + 2 * k < NTIME_RANGE
  {
    if start + 2 * k >= NTIME_RANGE {
      assert Produced(start, k, 0) == start;
      assert Produced(start, k, k + 1) == start + 2 * k - NTIME_RANGE;
    }
  }

  ghost predicate SecondsDiffer(s: seq<Work>)
    reads s
  {
    forall i, j | 0 <= i < j < |s| :: s[i].ntime != s[j].ntime
  }

  lemma RoundsFit(rolls: int, master: bool, willing: nat -> bool, mrs: Int32)
    ensures 2 * Rounds(rolls, master, willing, mrs, 0) < NTIME_RANGE
  {
  }

  // Staged clones, restaged master and returned clone all work on different seconds.
  lemma ProducedDiffer(clones: seq<Work>, work: Work, c: Work, start: nat, ids: nat)
    requires 0 < |clones| && 2 * |clones| < NTIME_RANGE && start < NTIME_RANGE
    requires AreClones(clones, start, ids) && IsClone(c, |clones|, start, ids)
    requires work.ntime == NtimeAt(start, 2 * |clones|)
    ensures SecondsDiffer(clones + [work] + [c])
  {
    var k := |clones|;
    var s := clones + [work] + [c];
    assert forall i | 0 <= i < k :: s[i].ntime == Produced(start, k, i);
    assert s[k].ntime == Produced(start, k, k + 1) && s[k + 1].ntime == Produced(start, k, k);
    hide NtimeAt, Produced, IsClone;
    forall i, j | 0 <= i < j < |s| ensures s[i].ntime != s[j].ntime {
      if j < k {
        ProducedDistinct(start, k, i, j);
      } else if i < k {
        ProducedDistinct(start, k, i, if j == k then k + 1 else k);
      } else {
        ProducedDistinct(start, k, k, k + 1);
      }
    }
  }

  // clone_work: `mrs` is what mining_threads + max_queue - total_staged() came to, and `staged` what
  // stage_work was handed, in order.
  method CloneWork(work: Work, counter: WorkCounter, mrs: Int32, willing: nat -> bool)
      returns (ret: Work, staged: seq<Work>, ghost k: nat)
    requires work.ntime < NTIME_RANGE
    modifies work`ntime, work`rolls, work`id, counter
    ensures k == Rounds(old(work.rolls), work.Master(), willing, mrs, 0)
    ensures Allowed(old(work.rolls), willing, 0, k)
    ensures k > 0 ==> !work.stratum && work.hasPool && work.rolltime != 0 && !work.clone && k <= mrs
    ensures !work.stratum && work.hasPool && work.rolltime != 0 && !work.clone && k < mrs ==>
      old(work.rolls) + 2 * k >= 7000 || !willing(k)
    ensures work.ntime == NtimeAt(old(work.ntime), 2 * k) && work.rolls == old(work.rolls) + 2 * k
    ensures k == 0 ==> ret == work && staged == [] && work.id == old(work.id)
    ensures k > 0 ==> |staged| == k + 1 && staged[k] == work && work.id == old(counter.total) + 3 * k
    ensures k > 0 ==> ret != work && IsClone(ret, k, old(work.ntime), old(counter.total))
    ensures k > 0 ==> work !in staged[..k] && AreClones(staged[..k], old(work.ntime), old(counter.total))
    ensures k > 0 ==> SecondsDiffer(staged + [ret])
    ensures counter.total == old(counter.total) + if mrs < 1 then 0 else 3 * k + 1
  {
    assert NtimeAt(work.ntime, 0) == work.ntime;
    if mrs < 1 {
      return work, [], 0;
    }
    ghost var start, ids := work.ntime, counter.total;
    RoundsFit(work.rolls, work.Master(), willing, mrs);
    RoundsExactly(work.rolls, work.Master(), willing, mrs, 0);
    var c := work.MakeClone(counter);
    c, staged := RollLoop(work, counter, mrs, willing, c);
    k := |staged|;
    hide NtimeAt, IsClone, Rounds, Allowed;
    if |staged| == 0 {
      return work, [], 0;
    }
    assert (staged + [work])[..k] == staged;
    ProducedDiffer(staged, work, c, start, ids);
    staged := staged + [work];
    ret := c;
  }

  // A master that enters with at most 7001 rolls leaves with at most 7001, whatever the time tests answer;
  // one that enters with fewer never makes more than half the rolls left, rounded up.
  lemma {:induction false} RollsStayBounded(rolls: int, master: bool, willing: nat -> bool, left: int, i: nat)
    requires rolls <= MAX_ROLLS + 1
    ensures rolls + 2 * Rounds(rolls, master, willing, left, i) <= MAX_ROLLS + 1
    decreases if left < 0 then 0 else left
  {
    if left >= 1 && rolls < MAX_ROLLS {
      RollsStayBounded(rolls + 2, master, willing, left - 1, i + 1);
    }
  }

  // The bound is reached: every odd start below the limit ends on 7001 when time never stops the loop.
  lemma {:induction false} BoundIsReached(rolls: int, willing: nat -> bool, left: int, i: nat)
    requires rolls <= MAX_ROLLS + 1 && rolls % 2 == 1 && 2 * left >= MAX_ROLLS - rolls + 1
    requires forall j :: willing(j)
    ensures rolls + 2 * Rounds(rolls, true, willing, left, i) == MAX_ROLLS + 1
    decreases MAX_ROLLS + 1 - rolls
  {
    if rolls < MAX_ROLLS {
      BoundIsReached(rolls + 2, willing, left - 1, i + 1);
    }
  }

  // In one call of CloneWork no two items share a second: fewer than 2^31 rounds cannot come round again.
  lemma OneCallNeverRepeats(start: nat, rolls: int, master: bool, willing: nat -> bool, mrs: Int32, i: nat, j: nat)
    requires start < NTIME_RANGE
    requires 0 < Rounds(rolls, master, willing, mrs, 0) && i < j <= Rounds(rolls, master, willing, mrs, 0) + 1
    ensures Produced(start, Rounds(rolls, master, willing, mrs, 0), i) !=
            Produced(start, Rounds(rolls, master, willing, mrs, 0), j)
  {
    ProducedDistinct(start, Rounds(rolls, master, willing, mrs, 0), i, j);
  }

  // ---------------------------------------------------------------- many calls on one master

  // One call of clone_work: how many rounds it may make, and what the time tests answer.
  datatype Call = Call(mrs: Int32, willing: nat -> bool)

  function Sum(ks: seq<nat>): nat { if ks == [] then 0 else Sum(ks[..|ks| - 1]) + ks[|ks| - 1] }

  // The rounds of each call when the master, which waits staged between the calls, came with `rolls`.
  function RoundsOf(rolls: int, master: bool, calls: seq<Call>): (ks: seq<nat>)
    ensures |ks| == |calls|
  {
    if calls == [] then []
    else
      var n := |calls| - 1;
      var ks := RoundsOf(rolls, master, calls[..n]);
      ks + [Rounds(rolls + 2 * Sum(ks), master, calls[n].willing, calls[n].mrs, 0)]
  }

  // How far ahead of the master's first second the clones of a call of k rounds are that starts at `base`.
  function CallOffsets(base: nat, k: nat): (os: seq<nat>)
    ensures |os| == if k == 0 then 0 else k + 1
    ensures forall i | 0 <= i < |os| :: os[i] == base + Offset(i)
  {
    seq(if k == 0 then 0 else k + 1, (i: nat) => base + Offset(i))
  }

  // All the clones handed out by calls of `ks` rounds, in order.
  function Clones(ks: seq<nat>): seq<nat> {
    if ks == [] then [] else Clones(ks[..|ks| - 1]) + CallOffsets(2 * Sum(ks[..|ks| - 1]), ks[|ks| - 1])
  }

  // They move ahead all the time and stay behind the master.
  lemma {:induction false} ClonesIncrease(ks: seq<nat>)
    ensures forall i, j | 0 <= i < j < |Clones(ks)| :: Clones(ks)[i] < Clones(ks)[j]
    ensures forall i | 0 <= i < |Clones(ks)| :: Clones(ks)[i] < 2 * Sum(ks)
    decreases |ks|
  {
    if ks != [] {
      var n := |ks| - 1;
      ClonesIncrease(ks[..n]);
      var before, more := Clones(ks[..n]), CallOffsets(2 * Sum(ks[..n]), ks[n]);
      assert Clones(ks) == before + more;
    }
  }

  lemma {:induction false} RollsOverCalls(rolls: int, master: bool, calls: seq<Call>)
    requires rolls <= MAX_ROLLS + 1
    ensures rolls + 2 * Sum(RoundsOf(rolls, master, calls)) <= MAX_ROLLS + 1
    decreases |calls|
  {
    if calls != [] {
      var n := |calls| - 1;
      RollsOverCalls(rolls, master, calls[..n]);
      var ks := RoundsOf(rolls, master, calls[..n]);
      RollsStayBounded(rolls + 2 * Sum(ks), master, calls[n].willing, calls[n].mrs, 0);
      var k := Rounds(rolls + 2 * Sum(ks), master, calls[n].willing, calls[n].mrs, 0);
      assert (ks + [k])[..n] == ks;
    }
  }

  // Over any sequence of calls on one master no two clones share a second, nor a clone and the master: the
  // limit on rolls stops the master long before its seconds could come round again.
  lemma ManyCallsNeverRepeat(start: nat, rolls: nat, master: bool, calls: seq<Call>, i: nat, j: nat)
    requires rolls <= MAX_ROLLS + 1
    requires i < j <= |Clones(RoundsOf(rolls, master, calls))|
    ensures
      var ks := RoundsOf(rolls, master, calls);
      var seconds := Clones(ks) + [2 * Sum(ks)];
      NtimeAt(start, seconds[i]) != NtimeAt(start, seconds[j])
  {
    hide NtimeAt, Clones, RoundsOf, Sum;
    var ks := RoundsOf(rolls, master, calls);
    ClonesIncrease(ks);
    RollsOverCalls(rolls, master, calls);
    var seconds := Clones(ks) + [2 * Sum(ks)];
    SecondsApart(start, seconds[i], seconds[j]);
  }

  lemma SecondsApart(start: nat, a: nat, b: nat)
    requires a < b < NTIME_RANGE
    ensures NtimeAt(start, a) != NtimeAt(start, b)
  {
  }
}
