/**
 How adjust_quota_gcd of cgminer.c converts a pool's `quota_used`: an int, multiplied by one unsigned long
 and divided by another, with the conversions between the two types.
 */
module UsageRescale {
  const ULONG: nat := 0x1_0000_0000_0000_0000
  const UINT: nat := 0x1_0000_0000

  // What a conversion to int keeps of an unsigned long.
  function ToInt(x: nat): (y: int)
    ensures -0x8000_0000 <= y < 0x8000_0000 && (x - y) % 0x1_0000_0000 == 0
  {
    if x % 0x1_0000_0000 >= 0x8000_0000 then x % 0x1_0000_0000 - 0x1_0000_0000 else x % 0x1_0000_0000
  }

  // The int `used`, multiplied by one unsigned long and divided by another.
  function Rescale(used: int, oldGcd: nat, newGcd: nat): int
    requires newGcd > 0
  {
    ToInt((ToInt((used * oldGcd) % ULONG) % ULONG) / newGcd)
  }

  // What the division makes of the product: as an int it survives both conversions.
  lemma RescaleIs(used: int, oldGcd: nat, newGcd: nat, x: int)
    requires newGcd > 0 && x == used * oldGcd && -0x8000_0000 <= x < 0x8000_0000
    ensures Rescale(used, oldGcd, newGcd) == ToInt((if x >= 0 then x else ULONG + x) / newGcd)
  {
    if x >= 0 {
      assert x % ULONG == x && ToInt(x) == x;
    } else {
      assert x % ULONG == ULONG + x;
      assert (ULONG + x) % UINT == UINT + x;
      assert ToInt(ULONG + x) == x;
    }
  }

  lemma MulAtLeast(a: int, n: int)
    requires a >= 1 && n >= 1
    ensures a * n >= n && a * n >= a
  {
  }

  lemma MulMinus(a: int, b: int, n: int)
    ensures (a - b) * n == a * n - b * n
  {
  }

  lemma SameQuotient(a: int, s: nat, b: int, e: nat, n: nat)
    requires s < n && e < n && a * n + s == b * n + e
    ensures a == b && s == e
  {
    MulMinus(a, b, n);
    MulMinus(b, a, n);
    if a > b {
      MulAtLeast(a - b, n);
    } else if a < b {
      MulAtLeast(b - a, n);
    }
  }

  lemma Quotient(a: int, s: nat, n: nat)
    requires s < n
    ensures (a * n + s) / n == a
  {
    var x := a * n + s;
    assert x == x / n * n + x % n;
    SameQuotient(a, s, x / n, x % n, n);
  }

  lemma DivideShifted(q: int, r: nat, n: nat)
    requires n > 0 && ULONG + (q * n + r) >= 0
    ensures (ULONG + (q * n + r)) / n == q + (ULONG + r) / n
  {
    var k := (ULONG + r) / n;
    var s := (ULONG + r) % n;
    assert ULONG + r == k * n + s;
    assert ULONG + (q * n + r) == (q + k) * n + s;
    Quotient((q + k), s, n);
  }

  // The part the wrap-around adds vanishes as an int exactly when the divisor divides 2^32.
  lemma WrapVanishes(r: nat, n: nat)
    requires r < n < 0x8000_0000
    ensures (ULONG + r) / n % UINT == 0 <==> UINT % n == 0
  {
    var k := (ULONG + r) / n;
    var s := (ULONG + r) % n;
    assert ULONG + r == k * n + s;
    if UINT % n == 0 {
      var c := UINT / n;
      assert UINT == c * n;
      assert UINT * UINT == (UINT * c) * n;
      assert ULONG + r == (UINT * c) * n + r;
      Quotient(UINT * c, r, n);
      assert k == UINT * c;
    }
    if k % UINT == 0 {
      var c := k / UINT;
      assert k == c * UINT;
      assert k * n == UINT * (c * n);
      assert r - s == UINT * (c * n - UINT);
      assert c * n == UINT;
      Quotient(c, 0, n);
    }
  }

  lemma ToIntShift(q: int, k: nat)
    requires -0x8000_0000 <= q < 0 && q + k >= 0
    ensures ToInt(q + k) == q <==> k % UINT == 0
  {
  }

  lemma NegativeQuotient(x: int, n: nat)
    requires x < 0 < n
    ensures x <= x / n < 0
  {
    var q := x / n;
    assert x == q * n + x % n;
    if q >= 1 {
      MulAtLeast(q, n);
    } else if q < x {
      MulMinus(0, q + 1, n);
      MulMinus(q + 1, 1, n);
      MulAtLeast(-(q + 1), n);
    }
  }

  lemma PositiveQuotient(x: int, n: nat)
    requires 0 <= x && 0 < n
    ensures 0 <= x / n <= x
  {
    var q := x / n;
    assert x == q * n + x % n;
    if q > x {
      MulAtLeast(q, n);
    } else if q < 0 {
      MulMinus(0, q, n);
      MulAtLeast(-q, n);
    }
  }

  lemma ToIntSmall(q: nat)
    requires q < 0x8000_0000
    ensures ToInt(q) == q
  {
  }

  lemma NegativeExactly(x: int, n: nat)
    requires -0x8000_0000 <= x < 0 < n < 0x8000_0000
    ensures ToInt((ULONG + x) / n) == x / n <==> UINT % n == 0
  {
    hide ToInt;
    var q, r := x / n, x % n;
    assert x == q * n + r;
    NegativeQuotient(x, n);
    DivideShifted(q, r, n);
    WrapVanishes(r, n);
    ToIntShift(q, (ULONG + r) / n);
  }

  // While the product fits an int, the rescaled usage is the quotient (rounded down) exactly when the usage is
  // not negative or the new divisor divides 2^32.
  lemma RescaleExactly(used: int, oldGcd: nat, newGcd: nat)
    requires -0x8000_0000 <= used * oldGcd < 0x8000_0000 && 0 < newGcd < 0x8000_0000
    ensures Rescale(used, oldGcd, newGcd) == (used * oldGcd) / newGcd <==>
            used * oldGcd >= 0 || UINT % newGcd == 0
  {
    hide Rescale, ToInt;
    var x := used * oldGcd;
    RescaleIs(used, oldGcd, newGcd, x);
    if x < 0 {
      NegativeExactly(x, newGcd);
    } else {
      PositiveQuotient(x, newGcd);
      ToIntSmall(x / newGcd);
    }
  }

  lemma ToIntOfInt(y: int)
    requires -0x8000_0000 <= y < 0x8000_0000
    ensures ToInt(y % ULONG) == y
  {
    if y < 0 {
      assert y % ULONG == ULONG + y;
      assert (ULONG + y) % UINT == UINT + y;
    } else {
      assert y % ULONG == y;
    }
  }

  // Whatever the product: it is first cut to an int, `y`, and what is left of it is rounded down exactly when y
  // is not negative or the new divisor divides 2^32.
  lemma RescaleCut(used: int, oldGcd: nat, newGcd: nat, y: int)
    requires -0x8000_0000 <= y < 0x8000_0000 && (used * oldGcd - y) % 0x1_0000_0000 == 0 && 0 < newGcd < 0x8000_0000
    ensures Rescale(used, oldGcd, newGcd) == y / newGcd <==> y >= 0 || 0x1_0000_0000 % newGcd == 0
  {
    var x := (used * oldGcd) % ULONG;
    CutIsUnique(used * oldGcd, x, y);
    ToIntOfInt(y);
    assert y * 1 == y;
    assert Rescale(y, 1, newGcd) == ToInt(y % ULONG / newGcd) == Rescale(used, oldGcd, newGcd);
    hide Rescale, ToInt;
    RescaleExactly(y, 1, newGcd);
  }

  lemma CutIsUnique(p: int, x: nat, y: int)
    requires x == p % ULONG && -0x8000_0000 <= y < 0x8000_0000 && (p - y) % 0x1_0000_0000 == 0
    ensures ToInt(x) == y
  {
    var z := ToInt(x);
    assert (p - x) % ULONG == 0 && (x - z) % UINT == 0;
    assert (z - y) % UINT == 0;
  }

  // A usage that is not negative is rescaled exactly for every divisor.
  lemma RescaleExact(used: nat, oldGcd: nat, newGcd: nat)
    requires newGcd > 0 && used * oldGcd < 0x8000_0000
    ensures Rescale(used, oldGcd, newGcd) == (used * oldGcd) / newGcd
  {
    var x := used * oldGcd;
    assert ToInt(x % ULONG) == x;
    PositiveQuotient(x, newGcd);
  }

  lemma ZeroStaysZero(oldGcd: nat, newGcd: nat)
    requires newGcd > 0
    ensures Rescale(0, oldGcd, newGcd) == 0
  {
    RescaleExact(0, oldGcd, newGcd);
  }

  // A usage of -1, which discarding work of an earlier round can leave, is lost when the divisor becomes 3,
  // but survives when it becomes 2 or 4.
  lemma NegativeUsage()
    ensures Rescale(-1, 1, 3) == 0x5555_5555 != -1 / 3
    ensures Rescale(-1, 1, 2) == -1 == -1 / 2 && Rescale(-1, 1, 4) == -1 == -1 / 4
  {
    hide Rescale;
    assert UINT % 3 == 1 && UINT % 2 == 0 && UINT % 4 == 0;
    RescaleExactly(-1, 1, 2);
    RescaleExactly(-1, 1, 4);
    RescaleIs(-1, 1, 3, -1);
    assert (ULONG - 1) / 3 == 0x5555_5555_5555_5555;
    assert ToInt(0x5555_5555_5555_5555) == 0x5555_5555;
  }
}
