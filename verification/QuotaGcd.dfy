/**
 The divisor adjust_quota_gcd (cgminer.c) settles on, as a function of the quotas.  It starts from the least
 nonzero quota and is lowered pool by pool until it divides that pool's quota; divisors found for earlier
 pools are not looked at again, so the result need not divide them all.
 */
module QuotaGcd {
  import opened Common

  predicate Divides(d: nat, q: nat)
    requires d > 0
  {
    q % d == 0
  }

  // The greatest d <= g that divides q.
  function Shrink(g: nat, q: nat): (d: nat)
    requires g > 0
    ensures 0 < d <= g && Divides(d, q)
    ensures forall e | d < e <= g :: !Divides(e, q)
  {
    if Divides(g, q) then g else Shrink(g - 1, q)
  }

  // The least nonzero quota, 0 when there is none.
  function Lowest(quotas: seq<nat>): (l: nat)
    ensures forall i | 0 <= i < |quotas| && quotas[i] > 0 :: 0 < l <= quotas[i]
    ensures l > 0 ==> l in quotas
  {
    if quotas == [] then 0 else
      var l, q := Lowest(quotas[..|quotas| - 1]), quotas[|quotas| - 1];
      if q > 0 && (l == 0 || q < l) then q else l
  }

  lemma LowestNext(quotas: seq<nat>, i: nat)
    requires i <= |quotas|
    ensures Lowest([]) == 0 && quotas[..0] == []
    ensures i < |quotas| ==>
      var l, q := Lowest(quotas[..i]), quotas[i];
      Lowest(quotas[..i + 1]) == if q > 0 && (l == 0 || q < l) then q else l
  {
    if i < |quotas| {
      assert quotas[..i + 1][..i] == quotas[..i];
    }
  }

  function ShrinkAll(g: nat, quotas: seq<nat>): (d: nat)
    requires g > 0
    ensures 0 < d <= g
  {
    if quotas == [] then g else
      var d, q := ShrinkAll(g, quotas[..|quotas| - 1]), quotas[|quotas| - 1];
      if q == 0 then d else Shrink(d, q)
  }

  function Adjusted(quotas: seq<nat>): (g: nat)
    ensures g > 0
  {
    var l := Lowest(quotas);
    if l == 0 then 1 else ShrinkAll(l, quotas)
  }

  ghost predicate CommonDivisor(d: nat, quotas: seq<nat>) {
    d > 0 && forall i | 0 <= i < |quotas| && quotas[i] > 0 :: Divides(d, quotas[i])
  }

  ghost predicate IsGcd(g: nat, quotas: seq<nat>) {
    CommonDivisor(g, quotas) && forall d: nat | CommonDivisor(d, quotas) :: d <= g
  }

  lemma DivisorAtMost(d: nat, q: nat)
    requires d > 0 && q > 0 && Divides(d, q)
    ensures d <= q
  {
  }

  // A list with a nonzero quota has a greatest common divisor.
  lemma GcdExists(quotas: seq<nat>) returns (g: nat)
    requires exists q :: q in quotas && q > 0
    ensures IsGcd(g, quotas)
  {
    var i :| 0 <= i < |quotas| && quotas[i] > 0;
    g := GreatestUpTo(quotas, quotas[i]);
    forall d: nat | CommonDivisor(d, quotas) ensures d <= g {
      DivisorAtMost(d, quotas[i]);
    }
  }

  lemma {:induction false} GreatestUpTo(quotas: seq<nat>, top: nat) returns (g: nat)
    requires top > 0
    ensures CommonDivisor(g, quotas) && forall d: nat | CommonDivisor(d, quotas) && d <= top :: d <= g
  {
    if CommonDivisor(top, quotas) {
      g := top;
    } else {
      assert CommonDivisor(1, quotas);
      g := GreatestUpTo(quotas, top - 1);
    }
  }

  lemma {:induction false} CommonDivisorsSurvive(g: nat, quotas: seq<nat>, d: nat)
    requires g > 0 && CommonDivisor(d, quotas) && d <= g
    ensures d <= ShrinkAll(g, quotas)
    decreases |quotas|
  {
    if quotas != [] {
      var n := |quotas| - 1;
      assert CommonDivisor(d, quotas[..n]) by {
        forall i | 0 <= i < n && quotas[..n][i] > 0 ensures Divides(d, quotas[..n][i]) {
          assert quotas[..n][i] == quotas[i];
        }
      }
      CommonDivisorsSurvive(g, quotas[..n], d);
    }
  }

  // The result lies between every common divisor and the least nonzero quota.
  lemma AdjustedBounds(quotas: seq<nat>, d: nat)
    requires (exists q :: q in quotas && q > 0) && CommonDivisor(d, quotas)
    ensures d <= Adjusted(quotas)
    ensures forall i | 0 <= i < |quotas| && quotas[i] > 0 :: Adjusted(quotas) <= quotas[i]
  {
    var l := Lowest(quotas);
    var i :| 0 <= i < |quotas| && quotas[i] > 0;
    var j :| 0 <= j < |quotas| && quotas[j] == l;
    DivisorAtMost(d, quotas[j]);
    CommonDivisorsSurvive(l, quotas, d);
  }

  // So it is the greatest common divisor exactly when it divides every quota.
  lemma AdjustedIsGcdIfCommon(quotas: seq<nat>)
    requires exists q :: q in quotas && q > 0
    ensures IsGcd(Adjusted(quotas), quotas) <==> CommonDivisor(Adjusted(quotas), quotas)
  {
    forall d: nat | CommonDivisor(d, quotas) ensures d <= Adjusted(quotas) {
      AdjustedBounds(quotas, d);
    }
  }

  // ---------------------------------------------------------------- when the divisor is the right one

  // Where a descent from `top` has come to.
  function End(ds: seq<nat>, top: nat): nat { if ds == [] then top else ds[|ds| - 1] }

  // Divisors of the quotas, one per pool in pool order (every number divides a quota of zero), that never
  // grow on the way from `top`.
  ghost predicate Descent(ds: seq<nat>, quotas: seq<nat>, top: nat) {
    |ds| == |quotas| && (ds == [] ||
      var n := |ds| - 1;
      Descent(ds[..n], quotas[..n], top) && 0 < ds[n] <= End(ds[..n], top) && Divides(ds[n], quotas[n]))
  }

  // No way down from the least nonzero quota ends above `g`.
  ghost predicate EveryDescentEndsBy(quotas: seq<nat>, g: nat) {
    forall ds | Descent(ds, quotas, Lowest(quotas)) :: End(ds, Lowest(quotas)) <= g
  }

  lemma {:induction false} DescentsEndBelow(ds: seq<nat>, quotas: seq<nat>, top: nat)
    requires top > 0 && Descent(ds, quotas, top)
    ensures End(ds, top) <= ShrinkAll(top, quotas)
    decreases |ds|
  {
    if ds != [] {
      var n := |ds| - 1;
      DescentsEndBelow(ds[..n], quotas[..n], top);
    }
  }

  // The loop follows a descent itself.
  lemma {:induction false} OneDescentReaches(quotas: seq<nat>, top: nat) returns (ds: seq<nat>)
    requires top > 0
    ensures Descent(ds, quotas, top) && End(ds, top) == ShrinkAll(top, quotas)
    decreases |quotas|
  {
    ds := [];
    if quotas != [] {
      var n := |quotas| - 1;
      var before := OneDescentReaches(quotas[..n], top);
      var d := ShrinkAll(top, quotas);
      ds := before + [d];
      assert ds[..n] == before;
    }
  }

  // So the divisor is the greatest number that a descent from the least nonzero quota ends on.
  lemma AdjustedIsHighestEnd(quotas: seq<nat>) returns (ds: seq<nat>)
    requires exists q :: q in quotas && q > 0
    ensures Lowest(quotas) in quotas && forall i | 0 <= i < |quotas| && quotas[i] > 0 :: 0 < Lowest(quotas) <= quotas[i]
    ensures Descent(ds, quotas, Lowest(quotas)) && End(ds, Lowest(quotas)) == Adjusted(quotas)
    ensures EveryDescentEndsBy(quotas, Adjusted(quotas))
  {
    var l := Lowest(quotas);
    var i :| 0 <= i < |quotas| && quotas[i] > 0;
    ds := OneDescentReaches(quotas, l);
    forall other | Descent(other, quotas, l) ensures End(other, l) <= Adjusted(quotas) {
      DescentsEndBelow(other, quotas, l);
    }
  }

  // The code finds the greatest common divisor exactly when no descent through the quotas ends above it.
  lemma AdjustedIsGcdExactly(quotas: seq<nat>, g: nat)
    requires (exists q :: q in quotas && q > 0) && IsGcd(g, quotas)
    ensures Adjusted(quotas) == g <==> EveryDescentEndsBy(quotas, g)
  {
    var l := Lowest(quotas);
    var i :| 0 <= i < |quotas| && quotas[i] > 0;
    AdjustedBounds(quotas, g);
    if EveryDescentEndsBy(quotas, g) {
      var ds := OneDescentReaches(quotas, l);
      assert End(ds, l) <= g;
    }
    if Adjusted(quotas) == g {
      forall ds | Descent(ds, quotas, l) ensures End(ds, l) <= g {
        DescentsEndBelow(ds, quotas, l);
      }
    }
  }

  // What a pool of this quota may be given per round.
  function PerRound(quota: nat, g: nat): (r: nat)
    requires g > 0
    ensures r * g <= quota < r * g + g
  {
    quota / g
  }

  // The share a pool gets per round.
  function Share(quotas: seq<nat>, i: nat): nat
    requires i < |quotas|
  {
    PerRound(quotas[i], Adjusted(quotas))
  }

  lemma QuotientMonotone(q: nat, d: nat, e: nat)
    requires 0 < d <= e
    ensures q / e <= q / d
  {
    var a, b := q / e, q / d;
    assert e * a <= q < d * b + d;
    MulMonotone(d, e, b);
    if b < a {
      MulMonotone(b + 1, a, e);
    }
  }

  lemma QuotientAtLeastOne(q: nat, g: nat)
    requires 0 < g <= q
    ensures q / g >= 1
  {
  }

  // A pool with a quota keeps a share, and no share exceeds what the true divisor would give.
  lemma SharesBounded(quotas: seq<nat>, d: nat, i: nat)
    requires CommonDivisor(d, quotas) && i < |quotas|
    ensures quotas[i] > 0 ==> 1 <= Share(quotas, i)
    ensures Share(quotas, i) <= quotas[i] / d
  {
    hide Adjusted, Divides;
    var q, g := quotas[i], Adjusted(quotas);
    if q > 0 {
      assert q in quotas;
      AdjustedBounds(quotas, d);
      QuotientMonotone(q, d, g);
      QuotientAtLeastOne(q, g);
    }
  }

  // The last nonzero quota is divided.
  lemma {:induction false} LastIsDivided(g: nat, quotas: seq<nat>, i: nat)
    requires g > 0 && i < |quotas| && quotas[i] > 0
    requires forall j | i < j < |quotas| :: quotas[j] == 0
    ensures Divides(ShrinkAll(g, quotas), quotas[i])
    decreases |quotas|
  {
    var n := |quotas| - 1;
    if i < n {
      LastIsDivided(g, quotas[..n], i);
    }
  }

  // The shares per round are in the proportion of the quotas.
  ghost predicate Proportional(quotas: seq<nat>) {
    forall i, j | 0 <= i < |quotas| && 0 <= j < |quotas| :: Share(quotas, i) * quotas[j] == Share(quotas, j) * quotas[i]
  }

  lemma ProportionalIfCommon(quotas: seq<nat>)
    ensures Proportional(quotas) <==> CommonDivisor(Adjusted(quotas), quotas)
  {
    var g := Adjusted(quotas);
    if CommonDivisor(g, quotas) {
      forall i, j | 0 <= i < |quotas| && 0 <= j < |quotas|
        ensures Share(quotas, i) * quotas[j] == Share(quotas, j) * quotas[i]
      {
        ExactShares(quotas[i], quotas[j], g);
      }
    }
    if Proportional(quotas) {
      forall i | 0 <= i < |quotas| && quotas[i] > 0 ensures Divides(g, quotas[i]) {
        var k := LastNonzero(quotas, i);
        LastIsDivided(Lowest(quotas), quotas, k);
        ProportionalDivides(quotas[i], quotas[k], g);
      }
    }
  }

  // They are in that proportion for exactly the same quotas as the divisor is the greatest common one.
  lemma SharesProportionalExactly(quotas: seq<nat>, g: nat)
    requires (exists q :: q in quotas && q > 0) && IsGcd(g, quotas)
    ensures Proportional(quotas) <==> EveryDescentEndsBy(quotas, g)
  {
    ProportionalIfCommon(quotas);
    AdjustedIsGcdIfCommon(quotas);
    AdjustedIsGcdExactly(quotas, g);
    OnlyOneGcd(g, Adjusted(quotas), quotas);
  }

  lemma OnlyOneGcd(g: nat, h: nat, quotas: seq<nat>)
    requires IsGcd(g, quotas)
    ensures IsGcd(h, quotas) <==> g == h
  {
  }

  lemma {:induction false} LastNonzero(quotas: seq<nat>, i: nat) returns (k: nat)
    requires i < |quotas| && quotas[i] > 0
    ensures k < |quotas| && quotas[k] > 0 && forall j | k < j < |quotas| :: quotas[j] == 0
    decreases |quotas|
  {
    var n := |quotas| - 1;
    if quotas[n] > 0 {
      k := n;
    } else {
      k := LastNonzero(quotas[..n], i);
    }
  }

  lemma ExactShares(p: nat, q: nat, g: nat)
    requires g > 0 && (p > 0 ==> Divides(g, p)) && (q > 0 ==> Divides(g, q))
    ensures (p / g) * q == (q / g) * p
  {
    assert p == g * (p / g) && q == g * (q / g);
  }

  lemma ProportionalDivides(p: nat, q: nat, g: nat)
    requires g > 0 && p > 0 && q > 0 && Divides(g, q) && (p / g) * q == (q / g) * p
    ensures Divides(g, p)
  {
    var a, b := p / g, q / g;
    assert q == g * b && p == g * a + p % g;
    assert a * (g * b) == b * (g * a + p % g);
    assert b * (p % g) == 0;
    assert b > 0;
  }

  lemma AdjustedFourAndSix()
    ensures Lowest([4, 6]) == 4 && Adjusted([4, 6]) == 3
  {
    var q := [4, 6];
    assert q[..1] == [4] && [4][..0] == [];
    assert Lowest(q) == 4;
    assert Shrink(4, 4) == 4;
    assert Shrink(4, 6) == 3;
    assert ShrinkAll(4, [4]) == 4;
  }

  // Quotas 4 and 6: 4 goes down to 3 through divisors of 4 and 6, which is above 2, so the first pool gets 1
  // and the second 2 per round instead of 2 and 3.
  lemma FourAndSix()
    ensures Adjusted([4, 6]) == 3 && !IsGcd(3, [4, 6]) && !Proportional([4, 6])
    ensures Descent([4, 3], [4, 6], Lowest([4, 6])) && CommonDivisor(2, [4, 6])
    ensures Share([4, 6], 0) == 1 && Share([4, 6], 1) == 2
  {
    var q := [4, 6];
    hide Shrink, ShrinkAll, Lowest, Adjusted;
    AdjustedFourAndSix();
    assert q[..1] == [4] && [4, 3][..1] == [4] && [4][..0] == [];
    assert Descent([4], [4], 4);
    assert !Divides(3, q[0]);
    assert Share(q, 0) * q[1] != Share(q, 1) * q[0];
  }
}
