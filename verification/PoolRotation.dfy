/**
 The rotate and round-robin branch of switch_pools (cgminer.c) on values: from the current slot to the next
 usable one, staying put when there is no other.
 */
module PoolRotation {

  // The slot at distance `d` after `c`, wrapping once.
  function At(c: nat, d: nat, n: nat): (i: nat)
    requires c < n && d <= n
    ensures i < n
  {
    if c + d < n then c + d else c + d - n
  }

  // The first usable slot at distance d, d + 1, ..., n - 1 from `c`, or `c` itself.
  function NextFrom(usable: seq<bool>, c: nat, d: nat): (i: nat)
    requires c < |usable| && 1 <= d <= |usable|
    ensures i < |usable|
    decreases |usable| - d
  {
    if d == |usable| then c
    else if usable[At(c, d, |usable|)] then At(c, d, |usable|)
    else NextFrom(usable, c, d + 1)
  }

  function NextPool(usable: seq<bool>, c: nat): (i: nat)
    requires c < |usable|
    ensures i < |usable|
  {
    NextFrom(usable, c, 1)
  }

  // `k` consecutive switches.
  function Turns(usable: seq<bool>, c: nat, k: nat): (i: nat)
    requires c < |usable|
    ensures i < |usable|
    decreases k
  {
    if k == 0 then c else Turns(usable, NextPool(usable, c), k - 1)
  }

  // The usable slots at distance 1 to d from `c`.
  function Ahead(usable: seq<bool>, c: nat, d: nat): nat
    requires c < |usable| && d <= |usable|
  {
    if d == 0 then 0 else Ahead(usable, c, d - 1) + if usable[At(c, d, |usable|)] then 1 else 0
  }

  // The usable slots among the first `i`.
  function Count(usable: seq<bool>, i: nat): nat
    requires i <= |usable|
  {
    if i == 0 then 0 else Count(usable, i - 1) + if usable[i - 1] then 1 else 0
  }

  lemma {:induction false} AheadConcat(usable: seq<bool>, c: nat, d: nat, e: nat)
    requires c < |usable| && d + e <= |usable|
    ensures Ahead(usable, c, d + e) == Ahead(usable, c, d) + Ahead(usable, At(c, d, |usable|), e)
    decreases e
  {
    if e > 0 {
      AheadConcat(usable, c, d, e - 1);
    }
  }

  lemma {:induction false} AheadCounts(usable: seq<bool>, c: nat, d: nat)
    requires c < |usable| && d <= |usable|
    ensures Ahead(usable, c, d) ==
      if c + d < |usable| then Count(usable, c + d + 1) - Count(usable, c + 1)
      else Count(usable, |usable|) - Count(usable, c + 1) + Count(usable, c + d - |usable| + 1)
    decreases d
  {
    if d > 0 {
      AheadCounts(usable, c, d - 1);
    }
  }

  // A full turn passes every usable slot once.
  lemma FullTurn(usable: seq<bool>, c: nat)
    requires c < |usable|
    ensures Ahead(usable, c, |usable|) == Count(usable, |usable|)
  {
    AheadCounts(usable, c, |usable|);
  }

  lemma {:induction false} AheadNone(usable: seq<bool>, c: nat, d: nat)
    requires c < |usable| && d <= |usable|
    requires forall e: nat | 1 <= e <= d :: !usable[At(c, e, |usable|)]
    ensures Ahead(usable, c, d) == 0
    decreases d
  {
    if d > 0 {
      AheadNone(usable, c, d - 1);
    }
  }

  lemma {:induction false} AheadMonotone(usable: seq<bool>, c: nat, d: nat, e: nat)
    requires c < |usable| && d <= e <= |usable|
    ensures Ahead(usable, c, d) <= Ahead(usable, c, e)
    decreases e
  {
    if d < e {
      AheadMonotone(usable, c, d, e - 1);
    }
  }

  // The distance the next pool is found at; the whole turn when there is no other.
  lemma {:induction false} NextIsFirstUsable(usable: seq<bool>, c: nat, d: nat) returns (e: nat)
    requires c < |usable| && 1 <= d <= |usable|
    ensures d <= e <= |usable| && NextFrom(usable, c, d) == At(c, e, |usable|)
    ensures e < |usable| ==> usable[At(c, e, |usable|)]
    ensures forall k: nat | d <= k < e :: !usable[At(c, k, |usable|)]
    decreases |usable| - d
  {
    if d == |usable| || usable[At(c, d, |usable|)] {
      e := d;
    } else {
      e := NextIsFirstUsable(usable, c, d + 1);
    }
  }

  // The slots passed over, in the order of their numbers and back to the start, cannot be used.
  lemma NextPassesUnusable(usable: seq<bool>, c: nat)
    requires c < |usable|
    ensures var d := NextPool(usable, c);
      && (d != c ==> usable[d])
      && forall i | 0 <= i < |usable| && i != c && (if c < d then c < i < d else i > c || i < d) :: !usable[i]
  {
    var d, n := NextPool(usable, c), |usable|;
    var e := NextIsFirstUsable(usable, c, 1);
    forall i | 0 <= i < n && i != c && (if c < d then c < i < d else i > c || i < d) ensures !usable[i] {
      var k := if i > c then i - c else i + n - c;
      assert At(c, k, n) == i;
    }
  }

  // As many switches as there are usable slots up to it bring a usable slot to the front.
  lemma {:induction false} ReachedAt(usable: seq<bool>, c: nat, d: nat)
    requires c < |usable| && 1 <= d <= |usable| && usable[At(c, d, |usable|)]
    ensures 1 <= Ahead(usable, c, d)
    ensures Turns(usable, c, Ahead(usable, c, d)) == At(c, d, |usable|)
    decreases d
  {
    var e := NextIsFirstUsable(usable, c, 1);
    var v := NextPool(usable, c);
    AheadNone(usable, c, e - 1);
    assert e <= d;
    AheadConcat(usable, c, e, d - e);
    if e < d {
      assert At(v, d - e, |usable|) == At(c, d, |usable|);
      ReachedAt(usable, v, d - e);
    } else {
      assert Ahead(usable, v, 0) == 0;
    }
  }

  // With k usable pools held fixed, each of them becomes current within any k consecutive switches.
  lemma EveryUsablePoolGetsItsTurn(usable: seq<bool>, c: nat, u: nat)
    requires c < |usable| && u < |usable| && usable[u]
    ensures exists k :: 1 <= k <= Count(usable, |usable|) && Turns(usable, c, k) == u
  {
    var n := |usable|;
    var d := if u > c then u - c else u + n - c;
    assert At(c, d, n) == u;
    ReachedAt(usable, c, d);
    FullTurn(usable, c);
    AheadMonotone(usable, c, d, n);
  }
}
