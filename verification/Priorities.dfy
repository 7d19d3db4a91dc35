/**
 Pool priorities on values: `p[i]` is the priority of the pool in slot `i`.  In every reachable state
 they are a permutation of 0, 1, ..., |p| - 1.
 */
module Priorities {

  ghost predicate IsPerm(p: seq<int>) {
    && (forall i | 0 <= i < |p| :: 0 <= p[i] < |p|)
    && (forall i, j | 0 <= i < j < |p| :: p[i] != p[j])
  }

  function Values(p: seq<int>): set<int> { set i | 0 <= i < |p| :: p[i] }

  function Below(n: nat): (b: set<int>)
    ensures |b| == n && forall x :: x in b <==> 0 <= x < n
  {
    if n == 0 then {} else Below(n - 1) + {n - 1}
  }

  lemma {:induction false} ValuesSize(p: seq<int>)
    requires forall i, j | 0 <= i < j < |p| :: p[i] != p[j]
    ensures |Values(p)| == |p|
    decreases |p|
  {
    if p != [] {
      var n := |p| - 1;
      ValuesSize(p[..n]);
      assert Values(p) == Values(p[..n]) + {p[n]} by {
        forall x | x in Values(p) ensures x in Values(p[..n]) + {p[n]} {
          var i :| 0 <= i < |p| && p[i] == x;
          if i < n { assert p[..n][i] == x; }
        }
        assert forall i | 0 <= i < n :: p[..n][i] == p[i];
      }
      assert p[n] !in Values(p[..n]);
    }
  }

  // Pigeonhole: every priority below |p| belongs to some pool.
  lemma PermHits(p: seq<int>, c: int)
    requires IsPerm(p) && 0 <= c < |p|
    ensures exists i :: 0 <= i < |p| && p[i] == c
  {
    ValuesSize(p);
    if c !in Values(p) {
      SubsetSize(Values(p), Below(|p|) - {c});
    }
  }

  lemma SubsetSize(a: set<int>, b: set<int>)
    requires a <= b
    ensures |a| <= |b|
  {
    assert b == a + (b - a);
  }

  // ---------------------------------------------------------------- add_pool

  lemma AppendIsPerm(p: seq<int>)
    requires IsPerm(p)
    ensures IsPerm(p + [|p|])
  {
  }

  // ---------------------------------------------------------------- switch_pools

  // Pool `s` goes first, the ones that were before it move down by one.
  function Promote(p: seq<int>, s: nat): (q: seq<int>)
    requires s < |p|
    ensures |q| == |p| && q[s] == 0
    ensures forall i | 0 <= i < |p| && i != s :: q[i] == p[i] + if p[i] < p[s] then 1 else 0
  {
    seq(|p|, i requires 0 <= i < |p| => if i == s then 0 else if p[i] < p[s] then p[i] + 1 else p[i])
  }

  lemma PromoteKeepsOrder(p: seq<int>, s: nat)
    requires IsPerm(p) && s < |p|
    ensures IsPerm(Promote(p, s)) && Promote(p, s)[s] == 0
    ensures forall i, j | 0 <= i < |p| && 0 <= j < |p| && i != s && j != s ::
      p[i] < p[j] <==> Promote(p, s)[i] < Promote(p, s)[j]
  {
  }

  // ---------------------------------------------------------------- remove_pool

  // Pools after `k` in priority move up by one, then the last slot takes the place of slot `k`.
  function Remove(p: seq<int>, k: nat): (q: seq<int>)
    requires k < |p|
    ensures |q| == |p| - 1 && forall i | 0 <= i < |q| ::
      var v := p[if i == k then |p| - 1 else i]; q[i] == v - if v > p[k] then 1 else 0
  {
    seq(|p| - 1, i requires 0 <= i < |p| - 1 =>
      var v := p[if i == k then |p| - 1 else i];
      if v > p[k] then v - 1 else v)
  }

  // The slot a surviving pool had before the removal of slot `k`.
  function OldSlot(i: nat, k: nat, n: nat): nat
    requires n > 0
  {
    if i == k then n - 1 else i
  }

  lemma RemoveKeepsOrder(p: seq<int>, k: nat)
    requires IsPerm(p) && k < |p|
    ensures IsPerm(Remove(p, k))
    ensures forall i, j | 0 <= i < |p| - 1 && 0 <= j < |p| - 1 ::
      p[OldSlot(i, k, |p|)] < p[OldSlot(j, k, |p|)] <==> Remove(p, k)[i] < Remove(p, k)[j]
  {
    var q, n := Remove(p, k), |p|;
    forall i | 0 <= i < n - 1 ensures 0 <= q[i] < n - 1 && OldSlot(i, k, n) != k {
      assert q[i] == if p[OldSlot(i, k, n)] > p[k] then p[OldSlot(i, k, n)] - 1 else p[OldSlot(i, k, n)];
      assert p[OldSlot(i, k, n)] != p[k];
    }
    forall i, j | 0 <= i < j < n - 1 ensures q[i] != q[j] {
      assert p[OldSlot(i, k, n)] != p[OldSlot(j, k, n)];
    }
  }

  // ---------------------------------------------------------------- poolpriority

  predicate ValidIds(ids: seq<int>, n: nat) {
    && (forall k | 0 <= k < |ids| :: 0 <= ids[k] < n)
    && (forall j, k | 0 <= j < k < |ids| :: ids[j] != ids[k])
  }

  // The unlisted pools whose priority is below `pr`.
  function UnlistedBelow(p: seq<int>, ids: seq<int>, pr: int): set<int> {
    set i | 0 <= i < |p| && i !in ids && p[i] < pr
  }

  function Position(ids: seq<int>, i: int): (k: nat)
    requires i in ids
    ensures k < |ids| && ids[k] == i
  {
    if ids[0] == i then 0 else 1 + Position(ids[1..], i)
  }

  // Listed pools get their position in the list, the others follow in their old order.
  function NewPrio(p: seq<int>, ids: seq<int>, i: nat): int
    requires i < |p|
  {
    if i in ids then Position(ids, i) else |ids| + |UnlistedBelow(p, ids, p[i])|
  }

  function Reprioritise(p: seq<int>, ids: seq<int>): (q: seq<int>)
    ensures |q| == |p| && forall i | 0 <= i < |p| :: q[i] == NewPrio(p, ids, i)
  {
    seq(|p|, i requires 0 <= i < |p| => NewPrio(p, ids, i))
  }

  lemma {:induction false} PositionIs(ids: seq<int>, k: nat)
    requires k < |ids| && forall i, j | 0 <= i < j < |ids| :: ids[i] != ids[j]
    ensures ids[k] in ids && Position(ids, ids[k]) == k
    decreases k
  {
    if k > 0 {
      PositionIs(ids[1..], k - 1);
    }
  }

  lemma UnlistedBelowGrows(p: seq<int>, ids: seq<int>, i: nat, j: nat)
    requires i < |p| && j < |p| && i !in ids && p[i] < p[j]
    ensures |UnlistedBelow(p, ids, p[i])| < |UnlistedBelow(p, ids, p[j])|
  {
    var a, b := UnlistedBelow(p, ids, p[i]), UnlistedBelow(p, ids, p[j]);
    SubsetSize(a, b - {i});
  }

  lemma UnlistedCount(p: seq<int>, ids: seq<int>)
    requires IsPerm(p) && ValidIds(ids, |p|)
    ensures |UnlistedBelow(p, ids, |p|)| + |ids| == |p|
  {
    ValuesSize(ids);
    assert UnlistedBelow(p, ids, |p|) == Below(|p|) - Values(ids);
    assert Values(ids) <= Below(|p|);
  }

  lemma ReprioritiseCorrect(p: seq<int>, ids: seq<int>)
    requires IsPerm(p) && ValidIds(ids, |p|)
    ensures IsPerm(Reprioritise(p, ids))
    ensures forall k | 0 <= k < |ids| :: Reprioritise(p, ids)[ids[k]] == k
    ensures forall i, j | 0 <= i < |p| && 0 <= j < |p| && i !in ids && j !in ids ::
      p[i] < p[j] <==> Reprioritise(p, ids)[i] < Reprioritise(p, ids)[j]
  {
    var q := Reprioritise(p, ids);
    forall k | 0 <= k < |ids| ensures q[ids[k]] == k { PositionIs(ids, k); }
    forall i, j | 0 <= i < |p| && 0 <= j < |p| && i !in ids && j !in ids && p[i] < p[j] ensures q[i] < q[j] {
      UnlistedBelowGrows(p, ids, i, j);
    }
    UnlistedCount(p, ids);
    forall i | 0 <= i < |p| && i !in ids ensures |ids| <= q[i] < |p| {
      SubsetSize(UnlistedBelow(p, ids, p[i]), UnlistedBelow(p, ids, |p|) - {i});
    }
    forall i, j | 0 <= i < j < |p| ensures q[i] != q[j] {
      if i !in ids && j !in ids { assert p[i] < p[j] || p[j] < p[i]; }
    }
  }

  // The listed positions and the old order of the others leave no choice.
  lemma ReprioritiseUnique(p: seq<int>, ids: seq<int>, q: seq<int>)
    requires IsPerm(p) && ValidIds(ids, |p|) && IsPerm(q) && |q| == |p|
    requires forall k | 0 <= k < |ids| :: q[ids[k]] == k
    requires forall i, j | 0 <= i < |p| && 0 <= j < |p| && i !in ids && j !in ids :: p[i] < p[j] <==> q[i] < q[j]
    ensures q == Reprioritise(p, ids)
  {
    forall i | 0 <= i < |p| ensures q[i] == NewPrio(p, ids, i) {
      if i in ids {
        var k := Position(ids, i);
      } else {
        RankIsPrio(q, ids, i);
        assert UnlistedBelow(p, ids, p[i]) == UnlistedBelow(q, ids, q[i]);
      }
    }
  }

  // In a permutation that starts with the listed pools, a priority counts the pools before it.
  lemma RankIsPrio(q: seq<int>, ids: seq<int>, i: nat)
    requires IsPerm(q) && ValidIds(ids, |q|) && i < |q| && i !in ids
    requires forall k | 0 <= k < |ids| :: q[ids[k]] == k
    ensures q[i] == |ids| + |UnlistedBelow(q, ids, q[i])|
  {
    var w := if q[i] < |ids| then ids[q[i]] else i;
    assert q[w] == q[i];
    assert w == i;
    var before := set j | 0 <= j < |q| && q[j] < q[i];
    SlotsBelow(q, q[i]);
    ValuesSize(ids);
    assert forall k | 0 <= k < |ids| :: ids[k] in before;
    assert before == Values(ids) + UnlistedBelow(q, ids, q[i]);
    assert Values(ids) !! UnlistedBelow(q, ids, q[i]);
  }

  lemma {:induction false} SlotsBelow(q: seq<int>, c: nat)
    requires IsPerm(q) && c <= |q|
    ensures |set j | 0 <= j < |q| && q[j] < c| == c
  {
    if c > 0 {
      SlotsBelow(q, c - 1);
      PermHits(q, c - 1);
      var i :| 0 <= i < |q| && q[i] == c - 1;
      assert (set j | 0 <= j < |q| && q[j] < c) == (set j | 0 <= j < |q| && q[j] < c - 1) + {i};
    } else {
      assert (set j | 0 <= j < |q| && q[j] < 0) == {};
    }
  }

  // ---------------------------------------------------------------- every run

  datatype Op = AddPool | Switch(slot: nat) | RemovePool(slot: nat) | Reorder(ids: seq<int>)

  predicate Enabled(p: seq<int>, op: Op) {
    match op
    case AddPool => true
    case Switch(s) => s < |p|
    case RemovePool(k) => k < |p|
    case Reorder(ids) => ValidIds(ids, |p|)
  }

  function Apply(p: seq<int>, op: Op): seq<int>
    requires Enabled(p, op)
  {
    match op
    case AddPool => p + [|p|]
    case Switch(s) => Promote(p, s)
    case RemovePool(k) => Remove(p, k)
    case Reorder(ids) => Reprioritise(p, ids)
  }

  // The priorities after a run that starts without pools; operations that are not enabled change nothing.
  function Run(ops: seq<Op>): seq<int> {
    if ops == [] then [] else
      var p, op := Run(ops[..|ops| - 1]), ops[|ops| - 1];
      if Enabled(p, op) then Apply(p, op) else p
  }

  lemma {:induction false} EveryRunIsPerm(ops: seq<Op>)
    ensures IsPerm(Run(ops))
    decreases |ops|
  {
    if ops != [] {
      var p, op := Run(ops[..|ops| - 1]), ops[|ops| - 1];
      EveryRunIsPerm(ops[..|ops| - 1]);
      hide IsPerm;
      match op {
        case AddPool => AppendIsPerm(p);
        case Switch(s) => if s < |p| { PromoteKeepsOrder(p, s); }
        case RemovePool(k) => if k < |p| { RemoveKeepsOrder(p, k); }
        case Reorder(ids) => if ValidIds(ids, |p|) { ReprioritiseCorrect(p, ids); }
      }
    } else {
      assert IsPerm([]);
    }
  }
}
