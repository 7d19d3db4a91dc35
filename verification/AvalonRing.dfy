/**
 The work ring of driver-avalon-miner.c and the table of queued work it must agree with.
 */
module AvalonRing {
  import opened Common

  const ARRAY_SIZE: nat := 5   // AVAM_DEFAULT_ARRAY_SIZE

  class Work {
    const id: nat
    var subid: int

    constructor (id: nat)
      ensures this.id == id
    {
      this.id := id;
    }
  }

  // ---------------------------------------------------------------- slots

  // The works that a sequence of slots holds.
  function Occupants(ws: seq<Work?>): (r: set<Work>)
    ensures forall w | w in r :: w in ws
  {
    if ws == [] then {}
    else var rest, last := Occupants(ws[..|ws| - 1]), ws[|ws| - 1]; if last == null then rest else rest + {last}
  }

  // No work stands in two slots.
  predicate NoTwice(ws: seq<Work?>) {
    ws == [] || (NoTwice(ws[..|ws| - 1]) && (ws[|ws| - 1] == null || ws[|ws| - 1] !in Occupants(ws[..|ws| - 1])))
  }

  lemma {:induction false} OccupantsExactly(ws: seq<Work?>, w: Work)
    ensures w in Occupants(ws) <==> w in ws
    decreases |ws|
  {
    if ws != [] {
      OccupantsExactly(ws[..|ws| - 1], w);
      assert ws == ws[..|ws| - 1] + [ws[|ws| - 1]];
    }
  }

  lemma {:induction false} NoTwiceMeans(ws: seq<Work?>, i: nat, j: nat)
    requires NoTwice(ws) && i < j < |ws| && ws[i] != null
    ensures ws[i] != ws[j]
    decreases |ws|
  {
    var n := |ws| - 1;
    if j < n {
      NoTwiceMeans(ws[..n], i, j);
    } else {
      assert ws[..n][i] == ws[i];
      OccupantsExactly(ws[..n], ws[i]);
    }
  }

  // Another work in slot i, one that stands nowhere yet.
  lemma {:induction false} Replaced(ws: seq<Work?>, i: nat, w: Work)
    requires NoTwice(ws) && i < |ws| && w !in Occupants(ws)
    ensures NoTwice(ws[i := w])
    ensures Occupants(ws[i := w]) == (if ws[i] == null then Occupants(ws) else Occupants(ws) - {ws[i]}) + {w}
    ensures ws[i] != null ==> ws[i] in Occupants(ws)
    decreases |ws|
  {
    var n := |ws| - 1;
    if i < n {
      Replaced(ws[..n], i, w);
      assert ws[i := w][..n] == ws[..n][i := w];
    } else {
      assert ws[i := w][..n] == ws[..n];
    }
  }

  lemma {:induction false} NothingIn(ws: seq<Work?>)
    requires forall i | 0 <= i < |ws| :: ws[i] == null
    ensures Occupants(ws) == {} && NoTwice(ws)
    decreases |ws|
  {
    if ws != [] {
      NothingIn(ws[..|ws| - 1]);
    }
  }

  // ---------------------------------------------------------------- time

  function Slot(group: nat, ac: nat, subid: nat): nat { group * ac + subid }

  lemma SlotInside(group: nat, ac: nat, subid: nat)
    requires group < ARRAY_SIZE && subid < ac
    ensures Slot(group, ac, subid) == group * ac + subid < 5 * ac
  {
    assert group * ac <= 4 * ac;
  }

  // Slots of different groups, or different places in a group, are different.
  lemma SlotsApart(a: nat, b: nat, ac: nat, i: nat, j: nat)
    requires i < ac && j < ac && (a != b || i != j)
    ensures Slot(a, ac, i) != Slot(b, ac, j)
  {
    if a < b {
      GroupsApart(a, b, ac);
    } else if b < a {
      GroupsApart(b, a, ac);
    }
  }

  lemma GroupsApart(a: nat, b: nat, ac: nat)
    requires a < b
    ensures a * ac + ac <= b * ac
  {
    assert (a + 1) * ac <= b * ac;
  }

  // `stamps` says at which rotation each slot was filled last. Group g is only filled at the rotations that
  // are g modulo 5; of the current group the first `high` slots have been filled since the last rotation.
  ghost predicate Timed(ws: seq<Work?>, stamps: seq<nat>, ac: nat, rotations: nat, high: nat) {
    && |ws| == |stamps| == ARRAY_SIZE * ac && high <= ac
    && forall g: nat, j: nat | g < ARRAY_SIZE && j < ac :: TimedSlot(ws, stamps, ac, rotations, high, g, j)
  }

  ghost predicate TimedSlot(ws: seq<Work?>, stamps: seq<nat>, ac: nat, rotations: nat, high: nat, g: nat, j: nat)
    requires |ws| == |stamps| == ARRAY_SIZE * ac
  {
    var k := Slot(g, ac, j);
    k < |ws| && (ws[k] != null ==>
      && stamps[k] <= rotations && stamps[k] % ARRAY_SIZE == g
      && (stamps[k] == rotations <==> g == rotations % ARRAY_SIZE && j < high))
  }

  lemma TimedRotate(ws: seq<Work?>, stamps: seq<nat>, ac: nat, rotations: nat, high: nat)
    requires Timed(ws, stamps, ac, rotations, high)
    ensures Timed(ws, stamps, ac, rotations + 1, 0)
  {
    var next, none := rotations + 1, 0;
    forall g: nat, j: nat | g < ARRAY_SIZE && j < ac ensures TimedSlot(ws, stamps, ac, next, none, g, j) {
      assert TimedSlot(ws, stamps, ac, rotations, high, g, j);
    }
  }

  function Max(a: nat, b: nat): nat { if a < b then b else a }

  // Filling slot j of the current group. What is pushed out was put there a multiple of five rotations ago,
  // and only if the slot had already been filled since the last rotation is that multiple zero.
  lemma TimedFill(ws: seq<Work?>, stamps: seq<nat>, ac: nat, rotations: nat, high: nat, j: nat, w: Work)
    requires Timed(ws, stamps, ac, rotations, high) && j < ac && j <= high
    ensures var k := Slot(rotations % ARRAY_SIZE, ac, j);
      && k < |ws| == |stamps| && Timed(ws[k := w], stamps[k := rotations], ac, rotations, Max(high, j + 1))
      && (ws[k] != null ==>
        && stamps[k] <= rotations && (rotations - stamps[k]) % ARRAY_SIZE == 0
        && (stamps[k] == rotations <==> j < high))
  {
    hide Slot;
    var a := rotations % ARRAY_SIZE;
    var k := Slot(a, ac, j);
    SlotInside(a, ac, j);
    assert TimedSlot(ws, stamps, ac, rotations, high, a, j);
    var high', ws', stamps' := Max(high, j + 1), ws[k := w], stamps[k := rotations];
    forall g: nat, i: nat | g < ARRAY_SIZE && i < ac ensures TimedSlot(ws', stamps', ac, rotations, high', g, i) {
      assert TimedSlot(ws, stamps, ac, rotations, high, g, i);
      if g != a || i != j {
        SlotsApart(g, a, ac, i, j);
      }
    }
  }

  // ---------------------------------------------------------------- the driver

  // The slots hold exactly the works of the table, each once; what has been completed is in neither.
  ghost predicate Agree(ws: seq<Work?>, table: set<Work>, count: int, completed: seq<Work>) {
    && NoTwice(ws) && table == Occupants(ws) && count == |table|
    && Distinct(completed) && forall i | 0 <= i < |completed| :: completed[i] !in table
  }

  ghost predicate Unknown(w: Work?, table: set<Work>, completed: seq<Work>) {
    w == null || (w !in table && w !in completed)
  }

  // What the invariant says slot by slot.
  lemma AgreeMeans(ws: seq<Work?>, table: set<Work>, count: int, completed: seq<Work>, i: nat, j: nat, w: Work)
    requires Agree(ws, table, count, completed) && i < |ws| && j < |ws|
    ensures i != j && ws[i] != null ==> ws[i] != ws[j]
    ensures w in table <==> w in ws
    ensures w in completed ==> w !in ws
  {
    OccupantsExactly(ws, w);
    if i < j && ws[i] != null {
      NoTwiceMeans(ws, i, j);
    } else if j < i && ws[j] != null {
      NoTwiceMeans(ws, j, i);
    }
  }

  lemma AgreeReplace(ws: seq<Work?>, table: set<Work>, count: int, completed: seq<Work>, k: nat, w: Work)
    requires Agree(ws, table, count, completed) && Unknown(w, table, completed) && k < |ws|
    ensures ws[k] == null ==> Agree(ws[k := w], table + {w}, count + 1, completed)
    ensures var e := ws[k]; e != null ==>
      e in table && e != w && Agree(ws[k := w], table + {w} - {e}, count, completed + [e])
  {
    Replaced(ws, k, w);
  }

  // The work that filling slot k pushes out, if there is one.
  function Evicted(ws: seq<Work?>, k: nat): seq<Work>
    requires k < |ws|
  {
    if ws[k] == null then [] else [ws[k]]
  }

  // Slot k was given `work` at this rotation, and what it held before is completed.
  ghost predicate Refilled(ws: seq<Work?>, ws': seq<Work?>, stamps: seq<nat>, stamps': seq<nat>,
                           completed: seq<Work>, completed': seq<Work>, k: nat, work: Work, rotations: nat)
    requires k < |ws| == |stamps|
  {
    ws' == ws[k := work] && stamps' == stamps[k := rotations] && completed' == completed + Evicted(ws, k)
  }

  // The evicted work was placed `gap` rotations ago: a multiple of five, and zero only for a slot that has
  // been filled before since the last rotation.
  predicate GapOk(gap: nat, stamp: nat, rotations: nat, again: bool) {
    stamp + gap == rotations && gap % 5 == 0 && (gap == 0 <==> again)
  }

  lemma NextGroup(r: nat)
    ensures (r + 1) % ARRAY_SIZE == if r % ARRAY_SIZE + 1 >= ARRAY_SIZE then 0 else r % ARRAY_SIZE + 1
  {
  }

  class Miner {
    const ac: nat                // asic_cnts
    const works: array<Work?>
    var queued: nat
    var workArray: nat
    var unqueuedWork: Work?
    var queuedWork: set<Work>    // the hash table; ids are never reused, so it is a set
    var queuedCount: int
    ghost var completed: seq<Work>
    ghost var rotations: nat
    ghost var stamps: seq<nat>
    ghost var high: nat          // how far the current group has been filled since the last rotation
    ghost var flushed: bool      // whether there was a flush since

    ghost predicate Valid()
      reads this, works
    {
      && Agree(works[..], queuedWork, queuedCount, completed)
      && Unknown(unqueuedWork, queuedWork, completed)
      && Timed(works[..], stamps, ac, rotations, high)
      && workArray == rotations % ARRAY_SIZE && queued <= high <= ac && (!flushed ==> queued == high)
    }

    // avalonm_prepare
    constructor (ac: nat)
      ensures Valid() && queuedWork == {} && completed == [] && this.ac == ac && fresh(works)
      ensures works.Length == 5 * ac && workArray == queued == 0
    {
      this.ac := ac;
      works := new Work?[ARRAY_SIZE * ac](_ => null);
      queued, workArray, unqueuedWork, queuedWork, queuedCount := 0, 0, null, {}, 0;
      completed, rotations, stamps, high, flushed := [], 0, seq(ARRAY_SIZE * ac, _ => 0), 0, false;
      new;
      NothingIn(works[..]);
      StartTimed(works[..], stamps, ac);
    }

    // fill_queue, once it has made new work: a waiting work is kept and the new one dropped.
    method Offer(id: nat)
      requires Valid()
      modifies `unqueuedWork
      ensures Valid() && unqueuedWork != null
      ensures old(unqueuedWork) == null ==> unqueuedWork.id == id
      ensures old(unqueuedWork) != null ==> unqueuedWork == old(unqueuedWork)
    {
      hide Agree, Timed;
      if unqueuedWork == null {
        unqueuedWork := new Work(id);
      }
    }

    // __get_queued; stale work is discarded.
    method GetQueued(stale: bool) returns (work: Work?)
      requires unqueuedWork == null || unqueuedWork !in queuedWork
      modifies `unqueuedWork, `queuedWork, `queuedCount
      ensures work == if stale then null else old(unqueuedWork)
      ensures unqueuedWork == null
      ensures work == null ==> queuedWork == old(queuedWork) && queuedCount == old(queuedCount)
      ensures work != null ==> queuedWork == old(queuedWork) + {work} && queuedCount == old(queuedCount) + 1
    {
      work := null;
      if unqueuedWork != null {
        work := unqueuedWork;
        if stale {
          work := null;
        } else {
          queuedCount := queuedCount + 1;
          queuedWork := queuedWork + {work};
        }
        unqueuedWork := null;
      }
    }

    // work_completed
    method WorkCompleted(work: Work)
      requires work in queuedWork
      modifies `queuedWork, `queuedCount, `completed
      ensures queuedWork == old(queuedWork) - {work} && queuedCount == old(queuedCount) - 1
      ensures completed == old(completed) + [work]
    {
      queuedCount := queuedCount - 1;
      queuedWork := queuedWork - {work};
      completed := completed + [work];
    }

    // The rest of avalonm_fill, once `work` has come and is in the table.
    method Place(work: Work) returns (ghost gap: nat)
      requires work in queuedWork && queued < ac && queued <= high
      requires Agree(works[..], queuedWork - {work}, queuedCount - 1, completed)
      requires Unknown(work, queuedWork - {work}, completed)
      requires Timed(works[..], stamps, ac, rotations, high) && workArray == rotations % ARRAY_SIZE
      modifies `queued, `queuedWork, `queuedCount, `completed, `stamps, `high, works, work
      ensures Agree(works[..], queuedWork, queuedCount, completed)
      ensures Timed(works[..], stamps, ac, rotations, high)
      ensures queued == old(queued) + 1 && high == Max(old(high), queued) && work.subid == old(queued)
      ensures Slot(workArray, ac, old(queued)) < works.Length && |old(stamps)| == works.Length
      ensures Refilled(old(works[..]), works[..], old(stamps), stamps, old(completed), completed,
                       Slot(workArray, ac, old(queued)), work, rotations)
      ensures old(works[..])[Slot(workArray, ac, old(queued))] != null ==>
        GapOk(gap, old(stamps)[Slot(workArray, ac, old(queued))], rotations, old(queued) < old(high))
    {
      hide Agree, Timed, Occupants, NoTwice, Unknown;
      gap := 0;
      TimedFill(works[..], stamps, ac, rotations, high, queued, work);
      AgreeReplace(works[..], queuedWork - {work}, queuedCount - 1, completed, Slot(workArray, ac, queued), work);
      assert queuedWork - {work} + {work} == queuedWork;
      var subid := queued;
      queued := queued + 1;
      work.subid := subid;
      var slot := workArray * ac + subid;
      if works[slot] != null {
        gap := rotations - stamps[slot];
        WorkCompleted(works[slot]);
      }
      works[slot] := work;
      stamps, high := stamps[slot := rotations], Max(high, subid + 1);
    }

    // avalonm_fill. `gap` is how many rotations ago the work that is pushed out was placed.
    method Fill(stale: bool) returns (full: bool, ghost gap: nat)
      requires Valid()
      modifies this, works, if unqueuedWork == null then {} else {unqueuedWork}
      ensures Valid() && rotations == old(rotations) && workArray == old(workArray) && flushed == old(flushed)
      ensures full <==> queued >= ac
      ensures old(queued) >= ac ==> unchanged(this, works)
      ensures old(queued) < ac ==> unqueuedWork == null
      ensures old(queued) < ac && (stale || old(unqueuedWork) == null) ==>
        unchanged(works, `queued, `queuedWork, `queuedCount, `completed, `stamps, `high)
      ensures old(queued) < ac && !stale && old(unqueuedWork) != null ==>
        var work, slot := old(unqueuedWork), Slot(workArray, ac, old(queued));
        && queued == old(queued) + 1 && work.subid == old(queued)
        && slot < works.Length && |old(stamps)| == works.Length
        && Refilled(old(works[..]), works[..], old(stamps), stamps, old(completed), completed, slot, work, rotations)
        && (old(works[..])[slot] != null ==>
          GapOk(gap, old(stamps)[slot], rotations, old(queued) < old(high)) && (!flushed ==> gap >= ARRAY_SIZE))
    {
      hide Agree, Timed, Refilled, Slot, Occupants;
      gap := 0;
      if queued >= ac {
        return true, gap;
      }
      ghost var table := queuedWork;
      var work := GetQueued(stale);
      if work == null {
        return false, gap;
      }
      assert queuedWork - {work} == table;
      gap := Place(work);
      full := !(queued < ac);
    }

    // avalonm_rotate_array
    method RotateArray()
      requires Valid()
      modifies `queued, `workArray, `rotations, `high, `flushed
      ensures Valid() && rotations == old(rotations) + 1 && queued == 0 && !flushed
      ensures workArray == (old(workArray) + 1) % 5
    {
      hide Agree, Timed;
      TimedRotate(works[..], stamps, ac, rotations, high);
      NextGroup(rotations);
      queued := 0;
      workArray := workArray + 1;
      if workArray >= ARRAY_SIZE {
        workArray := 0;
      }
      rotations, high, flushed := rotations + 1, 0, false;
    }

    // avalonm_flush_work
    method FlushWork()
      requires Valid()
      modifies `queued, `flushed
      ensures Valid() && queued == 0 && flushed
    {
      hide Agree, Timed;
      queued, flushed := 0, true;
    }

    // flush_queue, when it gets the lock
    method FlushQueue()
      requires Valid()
      modifies `unqueuedWork
      ensures Valid() && unqueuedWork == null
    {
      hide Agree, Timed;
      unqueuedWork := null;
    }
  }

  lemma StartTimed(ws: seq<Work?>, stamps: seq<nat>, ac: nat)
    requires |ws| == |stamps| == ARRAY_SIZE * ac && forall i | 0 <= i < |ws| :: ws[i] == null
    ensures Timed(ws, stamps, ac, 0, 0)
  {
    var none := 0;
    forall g: nat, j: nat | g < ARRAY_SIZE && j < ac ensures TimedSlot(ws, stamps, ac, none, none, g, j) {
      SlotInside(g, ac, j);
    }
  }
}
