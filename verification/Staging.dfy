/**
 The staged work queue of cgminer.c: a list kept sorted by staging time, and the counter `rollable` that
 hash_pop trusts when it decides whether a clone is there to be found.
 */
module Staging {
  import opened Common

  // A staged item; `pool` is the number of its pool.
  datatype Work = Work(id: nat, tvStaged: int, rolltime: int, clone: bool, pool: nat)

  // work_rollable
  predicate Rollable(w: Work) { !w.clone && w.rolltime != 0 }

  function CountRollable(s: seq<Work>): nat {
    if s == [] then 0 else CountRollable(s[..|s| - 1]) + if Rollable(s[|s| - 1]) then 1 else 0
  }

  ghost predicate Sorted(s: seq<Work>) {
    forall i, j | 0 <= i < j < |s| :: s[i].tvStaged <= s[j].tvStaged
  }

  // ---------------------------------------------------------------- the stable sort

  // w goes after everything that is not younger.
  function Insert(s: seq<Work>, w: Work): (r: seq<Work>)
    ensures |r| == |s| + 1
  {
    if s == [] || s[|s| - 1].tvStaged <= w.tvStaged then s + [w]
    else Insert(s[..|s| - 1], w) + [s[|s| - 1]]
  }

  // HASH_SORT with tv_sort: the merge sort keeps the order of items staged in the same second.
  function StableSort(s: seq<Work>): (r: seq<Work>)
    ensures |r| == |s|
  {
    if s == [] then [] else Insert(StableSort(s[..|s| - 1]), s[|s| - 1])
  }

  // The items staged in second `t`, in order.
  function StagedAt(s: seq<Work>, t: int): seq<Work> {
    if s == [] then [] else StagedAt(s[..|s| - 1], t) + if s[|s| - 1].tvStaged == t then [s[|s| - 1]] else []
  }

  lemma {:induction false} InsertSorted(s: seq<Work>, w: Work)
    requires Sorted(s)
    ensures Sorted(Insert(s, w))
    ensures forall x :: x in Insert(s, w) <==> x in s || x == w
    decreases |s|
  {
    if s != [] && s[|s| - 1].tvStaged > w.tvStaged {
      InsertSorted(s[..|s| - 1], w);
      var r := Insert(s[..|s| - 1], w);
      assert s == s[..|s| - 1] + [s[|s| - 1]];
      forall i | 0 <= i < |r| ensures r[i].tvStaged <= s[|s| - 1].tvStaged {
        assert r[i] in r;
      }
    }
  }

  // Where it goes: behind everything staged in the same second or before, before everything younger.
  lemma {:induction false} InsertSplits(s: seq<Work>, w: Work) returns (k: nat)
    requires Sorted(s)
    ensures k <= |s| && Insert(s, w) == s[..k] + [w] + s[k..]
    ensures forall i | 0 <= i < k :: s[i].tvStaged <= w.tvStaged
    ensures forall i | k <= i < |s| :: w.tvStaged < s[i].tvStaged
    decreases |s|
  {
    var n := |s| - 1;
    if s == [] || s[n].tvStaged <= w.tvStaged {
      k := |s|;
      assert s[..k] == s && s[k..] == [];
    } else {
      k := InsertSplits(s[..n], w);
      assert s[..n][..k] == s[..k] && s[..n][k..] + [s[n]] == s[k..];
    }
  }

  lemma {:induction false} InsertStable(s: seq<Work>, w: Work, t: int)
    requires Sorted(s)
    ensures StagedAt(Insert(s, w), t) == StagedAt(s, t) + if w.tvStaged == t then [w] else []
    decreases |s|
  {
    var n := |s| - 1;
    if s == [] || s[n].tvStaged <= w.tvStaged {
      assert (s + [w])[..|s|] == s;
    } else {
      InsertStable(s[..n], w, t);
      var r := Insert(s[..n], w) + [s[n]];
      assert r[..|r| - 1] == Insert(s[..n], w);
      if w.tvStaged == t {
        assert s[n].tvStaged != t;
      }
    }
  }

  lemma {:induction false} InsertCount(s: seq<Work>, w: Work)
    ensures CountRollable(Insert(s, w)) == CountRollable(s) + if Rollable(w) then 1 else 0
    decreases |s|
  {
    var n := |s| - 1;
    if s == [] || s[n].tvStaged <= w.tvStaged {
      assert (s + [w])[..|s|] == s;
    } else {
      InsertCount(s[..n], w);
      var r := Insert(s[..n], w) + [s[n]];
      assert r[..|r| - 1] == Insert(s[..n], w);
    }
  }

  // Sorted, nothing lost, and the items of every second in their old order.
  lemma {:induction false} StableSortCorrect(s: seq<Work>, t: int)
    ensures Sorted(StableSort(s))
    ensures StagedAt(StableSort(s), t) == StagedAt(s, t)
    ensures CountRollable(StableSort(s)) == CountRollable(s)
    decreases |s|
  {
    if s != [] {
      var n := |s| - 1;
      StableSortCorrect(s[..n], t);
      InsertSorted(StableSort(s[..n]), s[n]);
      InsertStable(StableSort(s[..n]), s[n], t);
      InsertCount(StableSort(s[..n]), s[n]);
    }
  }

  // Sorting a list that is sorted already changes nothing.
  lemma {:induction false} SortIdle(s: seq<Work>)
    requires Sorted(s)
    ensures StableSort(s) == s
    decreases |s|
  {
    if s != [] {
      SortIdle(s[..|s| - 1]);
    }
  }

  // So staging one more item inserts it behind everything that is not younger.
  lemma SortIsInsert(s: seq<Work>, w: Work)
    requires Sorted(s)
    ensures StableSort(s + [w]) == Insert(s, w)
  {
    assert (s + [w])[..|s|] == s;
    SortIdle(s);
  }

  // ---------------------------------------------------------------- the queue on values

  // `lost` counts the rollable items that are in the counter but not, or no longer, in the list.
  datatype State = State(staged: seq<Work>, rollable: int, lost: nat)

  ghost predicate Inv(s: State) {
    Sorted(s.staged) && s.rollable == CountRollable(s.staged) + s.lost
  }

  function One(b: bool): nat { if b then 1 else 0 }

  function Push(s: State, w: Work, frozen: bool): State {
    State(if frozen then s.staged else StableSort(s.staged + [w]), s.rollable + One(Rollable(w)),
      s.lost + One(frozen && Rollable(w)))
  }

  // The first item that cannot be rolled, |s| when there is none.
  function FirstClone(s: seq<Work>): (i: nat)
    ensures i <= |s| && (i < |s| ==> !Rollable(s[i]))
    ensures forall j | 0 <= j < i :: Rollable(s[j])
  {
    if s == [] then 0 else if !Rollable(s[0]) then 0 else 1 + FirstClone(s[1..])
  }

  function PopIndex(s: State): nat {
    if |s.staged| > s.rollable then FirstClone(s.staged) else 0
  }

  function Without(s: seq<Work>, i: nat): (r: seq<Work>)
    requires i < |s|
    ensures |r| == |s| - 1
  {
    s[..i] + s[i + 1..]
  }

  function Pop(s: State): State
    requires PopIndex(s) < |s.staged|
  {
    var i := PopIndex(s);
    State(Without(s.staged, i), s.rollable - One(Rollable(s.staged[i])), s.lost)
  }

  // What is left of `s` when the items that `drop` holds of are deleted.
  function Kept(s: seq<Work>, drop: Work -> bool): seq<Work> {
    if s == [] then [] else Kept(s[..|s| - 1], drop) + if drop(s[|s| - 1]) then [] else [s[|s| - 1]]
  }

  // discard_stale and clear_pool_work drop items without telling the counter.
  function Drop(s: State, drop: Work -> bool): State {
    State(Kept(s.staged, drop), s.rollable, s.lost + DroppedRollable(s.staged, drop))
  }

  function DroppedRollable(s: seq<Work>, drop: Work -> bool): nat {
    if s == [] then 0
    else DroppedRollable(s[..|s| - 1], drop) + One(drop(s[|s| - 1]) && Rollable(s[|s| - 1]))
  }

  lemma {:induction false} CountWithout(s: seq<Work>, i: nat)
    requires i < |s|
    ensures CountRollable(Without(s, i)) == CountRollable(s) - One(Rollable(s[i]))
    decreases |s|
  {
    var n := |s| - 1;
    if i < n {
      CountWithout(s[..n], i);
      assert Without(s, i)[..n - 1] == Without(s[..n], i);
      assert Without(s, i)[n - 1] == s[n];
    } else {
      assert Without(s, i) == s[..n];
    }
  }

  lemma {:induction false} CountKept(s: seq<Work>, drop: Work -> bool)
    ensures CountRollable(Kept(s, drop)) + DroppedRollable(s, drop) == CountRollable(s)
    decreases |s|
  {
    if s != [] {
      var n := |s| - 1;
      CountKept(s[..n], drop);
      var k := Kept(s[..n], drop);
      assert (k + [s[n]])[..|k|] == k && k + [] == k;
    }
  }

  lemma {:induction false} KeptSorted(s: seq<Work>, drop: Work -> bool)
    requires Sorted(s)
    ensures Sorted(Kept(s, drop))
    ensures forall x :: x in Kept(s, drop) <==> x in s && !drop(x)
    decreases |s|
  {
    if s != [] {
      var n := |s| - 1;
      KeptSorted(s[..n], drop);
      var k := Kept(s[..n], drop);
      assert s == s[..n] + [s[n]];
      forall i | 0 <= i < |k| ensures k[i].tvStaged <= s[n].tvStaged {
        assert k[i] in k && k[i] in s[..n];
      }
    }
  }

  // Within a second too the rest keeps its order.
  lemma {:induction false} KeptStable(s: seq<Work>, drop: Work -> bool, t: int)
    ensures StagedAt(Kept(s, drop), t) == Kept(StagedAt(s, t), drop)
    decreases |s|
  {
    if s != [] {
      var n := |s| - 1;
      KeptStable(s[..n], drop, t);
      var k, at := Kept(s[..n], drop), StagedAt(s[..n], t);
      assert (k + [s[n]])[..|k|] == k && k + [] == k;
      assert (at + [s[n]])[..|at|] == at && at + [] == at;
    }
  }

  lemma DropKeeps(s: State, drop: Work -> bool)
    requires Inv(s)
    ensures forall w :: w in Drop(s, drop).staged <==> w in s.staged && !drop(w)
  {
    KeptSorted(s.staged, drop);
  }

  lemma {:induction false} AllRollableCount(s: seq<Work>)
    ensures CountRollable(s) <= |s|
    ensures CountRollable(s) == |s| <==> forall i | 0 <= i < |s| :: Rollable(s[i])
    decreases |s|
  {
    if s != [] {
      AllRollableCount(s[..|s| - 1]);
    }
  }

  // `w` stands at position k, behind everything staged in its second or before and before everything younger.
  ghost predicate Placed(s: seq<Work>, w: Work, k: nat, r: seq<Work>) {
    && k <= |s| && r == s[..k] + [w] + s[k..]
    && (forall i | 0 <= i < k :: s[i].tvStaged <= w.tvStaged)
    && forall i | k <= i < |s| :: w.tvStaged < s[i].tvStaged
  }

  lemma PushPlaces(s: State, w: Work) returns (k: nat)
    requires Inv(s)
    ensures Placed(s.staged, w, k, StableSort(s.staged + [w]))
  {
    hide StableSort, Insert;
    k := InsertSplits(s.staged, w);
    SortIsInsert(s.staged, w);
  }

  lemma PushIs(s: State, w: Work, frozen: bool)
    ensures Push(s, w, frozen).rollable == s.rollable + One(Rollable(w))
    ensures Push(s, w, frozen).lost == s.lost + One(frozen && Rollable(w))
    ensures Push(s, w, frozen).staged == if frozen then s.staged else StableSort(s.staged + [w])
  {
  }

  // ---------------------------------------------------------------- what hash_pop takes

  // The search for a clone is entered exactly when there are more clones than lost items, and then it
  // finds the oldest of them; otherwise the oldest item is taken.
  lemma PopTakesOldest(s: State)
    requires Inv(s) && s.staged != []
    ensures |s.staged| > s.rollable <==> |s.staged| - CountRollable(s.staged) > s.lost
    ensures PopIndex(s) < |s.staged|
    ensures |s.staged| > s.rollable ==> var w := s.staged[PopIndex(s)]; w.clone || w.rolltime == 0
    ensures |s.staged| > s.rollable ==>
      forall w | w in s.staged && (w.clone || w.rolltime == 0) :: s.staged[PopIndex(s)].tvStaged <= w.tvStaged
    ensures |s.staged| > s.rollable ==>
      forall j | 0 <= j < PopIndex(s) :: !s.staged[j].clone && s.staged[j].rolltime != 0
    ensures |s.staged| <= s.rollable ==>
      PopIndex(s) == 0 && forall w | w in s.staged :: s.staged[PopIndex(s)].tvStaged <= w.tvStaged
  {
    AllRollableCount(s.staged);
    var i := FirstClone(s.staged);
    if i == |s.staged| {
      assert forall j | 0 <= j < |s.staged| :: Rollable(s.staged[j]);
    }
  }

  // ---------------------------------------------------------------- every run

  datatype Op = PushOp(w: Work, frozen: bool) | PopOp | DropOp(drop: Work -> bool)

  function Step(s: State, op: Op): State {
    match op
    case PushOp(w, frozen) => Push(s, w, frozen)
    case PopOp => if s.staged != [] && PopIndex(s) < |s.staged| then Pop(s) else s
    case DropOp(drop) => Drop(s, drop)
  }

  function Run(ops: seq<Op>): State {
    if ops == [] then State([], 0, 0) else Step(Run(ops[..|ops| - 1]), ops[|ops| - 1])
  }

  lemma StepInv(s: State, op: Op)
    requires Inv(s)
    ensures Inv(Step(s, op))
  {
    match op {
      case PushOp(w, frozen) =>
        StableSortCorrect(s.staged + [w], 0);
        assert (s.staged + [w])[..|s.staged|] == s.staged;
      case PopOp =>
        if s.staged != [] {
          PopTakesOldest(s);
          CountWithout(s.staged, PopIndex(s));
        }
      case DropOp(drop) =>
        CountKept(s.staged, drop);
        KeptSorted(s.staged, drop);
    }
  }

  lemma {:induction false} RunKeepsInv(ops: seq<Op>)
    ensures Inv(Run(ops))
    decreases |ops|
  {
    if ops != [] {
      RunKeepsInv(ops[..|ops| - 1]);
      StepInv(Run(ops[..|ops| - 1]), ops[|ops| - 1]);
    }
  }

  // In every run the list is sorted, the counter exceeds the rollable staged items by exactly the lost ones,
  // and whenever the search for a clone is entered there is one.
  lemma EveryRun(ops: seq<Op>)
    ensures Sorted(Run(ops).staged)
    ensures Run(ops).rollable == CountRollable(Run(ops).staged) + Run(ops).lost
    ensures |Run(ops).staged| > Run(ops).rollable ==> exists w :: w in Run(ops).staged && !Rollable(w)
  {
    var s := Run(ops);
    RunKeepsInv(ops);
    AllRollableCount(s.staged);
    if i :| 0 <= i < |s.staged| && !Rollable(s.staged[i]) {
      assert s.staged[i] in s.staged;
    }
  }

  // Does this operation add to the lost items?
  ghost predicate Loses(s: State, op: Op) {
    match op
    case PushOp(w, frozen) => frozen && Rollable(w)
    case PopOp => false
    case DropOp(drop) => exists w :: w in s.staged && drop(w) && Rollable(w)
  }

  lemma {:induction false} DroppedExactly(s: seq<Work>, drop: Work -> bool)
    ensures DroppedRollable(s, drop) > 0 <==> exists w :: w in s && drop(w) && Rollable(w)
    decreases |s|
  {
    if s != [] {
      var n := |s| - 1;
      DroppedExactly(s[..n], drop);
      assert s == s[..n] + [s[n]];
      if drop(s[n]) && Rollable(s[n]) {
        assert s[n] in s;
      }
    }
  }

  lemma LosesExactly(s: State, op: Op)
    ensures Step(s, op).lost >= s.lost
    ensures Step(s, op).lost > s.lost <==> Loses(s, op)
  {
    if op.DropOp? {
      DroppedExactly(s.staged, op.drop);
    }
  }

  // No operation of the run refused a rollable item to a frozen queue or dropped a rollable one.
  ghost predicate NothingLost(ops: seq<Op>) {
    ops == [] || (NothingLost(ops[..|ops| - 1]) && !Loses(Run(ops[..|ops| - 1]), ops[|ops| - 1]))
  }

  lemma {:induction false} LostExactly(ops: seq<Op>)
    ensures Run(ops).lost == 0 <==> NothingLost(ops)
    decreases |ops|
  {
    if ops != [] {
      LostExactly(ops[..|ops| - 1]);
      LosesExactly(Run(ops[..|ops| - 1]), ops[|ops| - 1]);
      hide Loses, Step;
    }
  }

  // So the counter is exact after precisely those runs.
  lemma CounterExactly(ops: seq<Op>)
    ensures Run(ops).rollable == CountRollable(Run(ops).staged) <==> NothingLost(ops)
  {
    RunKeepsInv(ops);
    LostExactly(ops);
  }

  function Is(a: Work): Work -> bool { (w: Work) => w == a }

  lemma RunSnoc(ops: seq<Op>, op: Op)
    ensures Run(ops + [op]) == Step(Run(ops), op)
  {
    assert (ops + [op])[..|ops|] == ops;
  }

  // Pushing something no older than all that is staged puts it last.
  lemma PushYoungest(s: State, w: Work)
    requires Sorted(s.staged) && (s.staged == [] || s.staged[|s.staged| - 1].tvStaged <= w.tvStaged)
    ensures Push(s, w, false) == State(s.staged + [w], s.rollable + One(Rollable(w)), s.lost)
  {
    SortIsInsert(s.staged, w);
    hide StableSort;
  }

  lemma DropOnly(a: Work)
    requires Rollable(a)
    ensures Drop(State([a], 1, 0), Is(a)) == State([], 1, 1)
  {
    assert [a][..0] == [];
    assert Kept([a], Is(a)) == Kept([], Is(a)) + [];
    assert DroppedRollable([a], Is(a)) == DroppedRollable([], Is(a)) + One(true);
  }

  lemma AfterOneDrop(a: Work)
    requires Rollable(a)
    ensures Run([PushOp(a, false), DropOp(Is(a))]) == State([], 1, 1)
  {
    var o1, o2 := PushOp(a, false), DropOp(Is(a));
    var empty := State([], 0, 0);
    assert Run([]) == empty && [] + [o1] == [o1] && [o1] + [o2] == [o1, o2] && [] + [a] == [a];
    RunSnoc([], o1);
    RunSnoc([o1], o2);
    PushYoungest(empty, a);
    DropOnly(a);
    hide Run, Push, Drop;
  }

  lemma AfterTwoMore(before: seq<Op>, b: Work, c: Work)
    requires Run(before) == State([], 1, 1) && Rollable(b) && !Rollable(c) && b.tvStaged < c.tvStaged
    ensures Run(before + [PushOp(b, false)] + [PushOp(c, false)]) == State([b, c], 2, 1)
  {
    var o3, o4 := PushOp(b, false), PushOp(c, false);
    RunSnoc(before, o3);
    RunSnoc(before + [o3], o4);
    hide Run, Push;
    PushYoungest(State([], 1, 1), b);
    assert [] + [b] == [b];
    PushYoungest(State([b], 2, 1), c);
    assert [b] + [c] == [b, c];
  }

  // One dropped master is enough: hash_pop then takes a master although a clone is staged.
  lemma CloneMissed(a: Work, b: Work, c: Work)
    requires Rollable(a) && Rollable(b) && !Rollable(c) && b.tvStaged < c.tvStaged
    ensures var s := Run([PushOp(a, false), DropOp(Is(a)), PushOp(b, false), PushOp(c, false)]);
      s.staged == [b, c] && s.rollable == 2 && PopIndex(s) == 0 && Pop(s).staged == [c]
  {
    hide Run;
    var before := [PushOp(a, false), DropOp(Is(a))];
    AfterOneDrop(a);
    AfterTwoMore(before, b, c);
    assert before + [PushOp(b, false)] + [PushOp(c, false)] ==
      [PushOp(a, false), DropOp(Is(a)), PushOp(b, false), PushOp(c, false)];
    assert Without([b, c], 0) == [c];
  }

  // ---------------------------------------------------------------- the queue as the program updates it

  function OfPool(pool: nat): Work -> bool { (w: Work) => w.pool == pool }

  // The search loop of hash_pop.
  method FindClone(s: seq<Work>) returns (i: nat)
    requires FirstClone(s) < |s|
    ensures i == FirstClone(s)
  {
    i := 0;
    assert s[0..] == s;
    while Rollable(s[i])
      invariant i <= FirstClone(s) == i + FirstClone(s[i..])
      decreases |s| - i
    {
      assert s[i..][1..] == s[i + 1..];
      i := i + 1;
    }
  }

  // The deletion loop; `gone` counts the rollable items among the dropped.
  method KeepOthers(s: seq<Work>, drop: Work -> bool) returns (kept: seq<Work>, dropped: nat, ghost gone: nat)
    ensures kept == Kept(s, drop) && gone == DroppedRollable(s, drop) && dropped + |kept| == |s|
  {
    var i := 0;
    kept, dropped, gone := [], 0, 0;
    while i < |s|
      invariant 0 <= i <= |s|
      invariant kept == Kept(s[..i], drop) && gone == DroppedRollable(s[..i], drop)
      invariant dropped + |kept| == i
    {
      assert s[..i + 1][..i] == s[..i];
      if drop(s[i]) {
        gone := gone + One(Rollable(s[i]));
        dropped := dropped + 1;
      } else {
        kept := kept + [s[i]];
      }
      i := i + 1;
    }
    assert s[..|s|] == s;
  }

  class Stager {
    var staged: seq<Work>
    var stagedRollable: int
    ghost var lost: nat

    ghost function View(): State
      reads this
    {
      State(staged, stagedRollable, lost)
    }

    ghost predicate Valid()
      reads this
    {
      Inv(View())
    }

    constructor ()
      ensures Valid() && View() == State([], 0, 0)
    {
      staged, stagedRollable, lost := [], 0, 0;
    }

    // hash_push: the counter moves even when the frozen queue refuses the item.
    method HashPush(work: Work, frozen: bool) returns (rc: bool, ghost k: nat)
      requires Valid()
      modifies this
      ensures Valid() && View() == Push(old(View()), work, frozen)
      ensures rc == !frozen
      ensures stagedRollable == old(stagedRollable) + if !work.clone && work.rolltime != 0 then 1 else 0
      ensures frozen ==> staged == old(staged)
      ensures !frozen ==> Placed(old(staged), work, k, staged)
    {
      hide Inv, Push, StableSort, Placed;
      k := PushPlaces(View(), work);
      StepInv(View(), PushOp(work, frozen));
      PushIs(View(), work, frozen);
      if Rollable(work) {
        stagedRollable := stagedRollable + 1;
      }
      if !frozen {
        staged := StableSort(staged + [work]);
        rc := true;
      } else {
        lost := lost + One(Rollable(work));
        rc := false;
      }
    }

    // hash_pop once it holds the lock: a blocking caller has waited until something is staged.
    method HashPop(blocking: bool) returns (work: Option<Work>)
      requires Valid() && (blocking ==> staged != [])
      modifies this
      ensures Valid()
      ensures work.None? <==> old(staged) == []
      ensures work.None? ==> View() == old(View())
      ensures work.Some? ==> PopIndex(old(View())) < |old(staged)| && View() == Pop(old(View()))
      ensures work.Some? ==> work.value == old(staged)[PopIndex(old(View()))]
      ensures work.Some? ==> var i := PopIndex(old(View())); staged == old(staged)[..i] + old(staged)[i + 1..]
      ensures work.Some? ==> var w := work.value;
        stagedRollable == old(stagedRollable) - if !w.clone && w.rolltime != 0 then 1 else 0
    {
      if |staged| == 0 {
        return None;
      }
      StepInv(View(), PopOp);
      PopTakesOldest(View());
      var i := 0;
      if |staged| > stagedRollable {
        i := FindClone(staged);
      }
      hide Inv;
      var taken := staged[i];
      staged := Without(staged, i);
      if Rollable(taken) {
        stagedRollable := stagedRollable - 1;
      }
      return Some(taken);
    }

    // The deletion of discard_stale and of clear_pool_work.
    method Delete(drop: Work -> bool) returns (dropped: nat)
      requires Valid()
      modifies this
      ensures Valid() && View() == Drop(old(View()), drop)
      ensures dropped == |old(staged)| - |staged|
      ensures forall w :: w in staged <==> w in old(staged) && !drop(w)
    {
      hide Inv, Kept, DroppedRollable;
      DropKeeps(View(), drop);
      StepInv(View(), DropOp(drop));
      var kept;
      ghost var gone;
      kept, dropped, gone := KeepOthers(staged, drop);
      staged, lost := kept, lost + gone;
    }

    // discard_stale, for any verdict of stale_work.
    method DiscardStale(stale: Work -> bool) returns (discarded: nat)
      requires Valid()
      modifies this
      ensures Valid() && View() == Drop(old(View()), stale)
      ensures discarded == |old(staged)| - |staged| && stagedRollable == old(stagedRollable)
      ensures forall w :: w in staged <==> w in old(staged) && !stale(w)
    {
      discarded := Delete(stale);
    }

    // clear_pool_work
    method ClearPoolWork(pool: nat) returns (cleared: nat)
      requires Valid()
      modifies this
      ensures Valid() && View() == Drop(old(View()), OfPool(pool))
      ensures cleared == |old(staged)| - |staged| && stagedRollable == old(stagedRollable)
      ensures forall w :: w in staged <==> w in old(staged) && w.pool != pool
    {
      cleared := Delete(OfPool(pool));
    }
  }
}
