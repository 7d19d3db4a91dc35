/**
 The cyclic redundancy check of section 2 of ITU-T V.41 on bits: a 16-bit register fed one bit at a time, the
 division by x^16 + x^12 + x^5 + 1 it performs, and the errors it detects.
 */
module CrcSpec {

  type Register = r: seq<bool> | |r| == 16 witness [
    false, false, false, false, false, false, false, false,
    false, false, false, false, false, false, false, false]

  function Zeros(n: nat): (z: seq<bool>)
    ensures |z| == n && forall i | 0 <= i < n :: !z[i]
  {
    seq(n, _ => false)
  }

  function Xor(a: seq<bool>, b: seq<bool>): (c: seq<bool>)
    requires |a| == |b|
    ensures |c| == |a| && forall i | 0 <= i < |a| :: c[i] == (a[i] != b[i])
  {
    seq(|a|, i requires 0 <= i < |a| => a[i] != b[i])
  }

  predicate Tap(j: int) { j == 3 || j == 10 || j == 15 }

  function Feed(r: Register, bit: bool): (s: Register)
    ensures forall j | 0 <= j < 16 :: s[j] == ((j < 15 && r[j + 1]) != (Tap(j) && r[0] != bit))
  {
    var s := seq(16, j requires 0 <= j < 16 => (j < 15 && r[j + 1]) != (Tap(j) && r[0] != bit));
    s
  }

  function FeedAll(r: Register, bits: seq<bool>): Register
    decreases |bits|
  {
    if bits == [] then r else FeedAll(Feed(r, bits[0]), bits[1..])
  }

  function Crc(bits: seq<bool>): Register { FeedAll(Zeros(16), bits) }

  lemma {:induction false} FeedConcat(r: Register, x: seq<bool>, y: seq<bool>)
    ensures FeedAll(r, x + y) == FeedAll(FeedAll(r, x), y)
    decreases |x|
  {
    if x == [] {
      assert x + y == y;
    } else {
      assert (x + y)[1..] == x[1..] + y;
      FeedConcat(Feed(r, x[0]), x[1..], y);
    }
  }

  lemma {:induction false} FeedLinear(r: Register, s: Register, x: seq<bool>, y: seq<bool>)
    requires |x| == |y|
    ensures FeedAll(Xor(r, s), Xor(x, y)) == Xor(FeedAll(r, x), FeedAll(s, y))
    decreases |x|
  {
    if x != [] {
      assert Feed(Xor(r, s), x[0] != y[0]) == Xor(Feed(r, x[0]), Feed(s, y[0]));
      assert Xor(x, y)[1..] == Xor(x[1..], y[1..]);
      FeedLinear(Feed(r, x[0]), Feed(s, y[0]), x[1..], y[1..]);
    }
  }

  lemma {:induction false} FeedOwnBits(r: Register, n: nat)
    requires n <= 16
    ensures FeedAll(r, r[..n]) == r[n..] + Zeros(n)
    decreases n
  {
    if n > 0 {
      var low: Register := r[1..] + [false];
      assert Feed(r, r[0]) == low;
      assert r[..n][1..] == low[..n - 1];
      FeedOwnBits(low, n - 1);
      assert low[n - 1..] + Zeros(n - 1) == r[n..] + Zeros(n);
    }
  }

  lemma FeedHigh(r: Register, x: seq<bool>)
    requires |x| <= 16
    ensures FeedAll(r, x) == Xor(r[|x|..] + Zeros(|x|), Crc(Xor(r[..|x|], x)))
  {
    var top := r[..|x|];
    assert Xor(r, Zeros(16)) == r;
    assert Xor(top, Xor(top, x)) == x;
    FeedLinear(r, Zeros(16), top, Xor(top, x));
    FeedOwnBits(r, |x|);
  }

  lemma {:induction false} FeedZeros(n: nat)
    ensures Crc(Zeros(n)) == Zeros(16)
  {
    if n > 0 {
      assert Feed(Zeros(16), false) == Zeros(16);
      assert Zeros(n)[1..] == Zeros(n - 1);
      FeedZeros(n - 1);
    }
  }

  ghost predicate TrailingZeros(r: Register, m: nat)
    requires m <= 16
  {
    forall j | 16 - m <= j < 16 :: !r[j]
  }

  // Running backwards
  lemma {:induction false} TrailingBefore(r: Register, x: seq<bool>, m: nat)
    requires |x| <= m <= 16
    requires TrailingZeros(FeedAll(r, x), m)
    ensures TrailingZeros(r, m - |x|)
    decreases |x|
  {
    if x != [] {
      var s := Feed(r, x[0]);
      TrailingBefore(s, x[1..], m);
      assert TrailingZeros(s, m - |x| + 1);
      assert !s[15];
      forall j | 16 - (m - |x|) <= j < 16 ensures !r[j] {
        assert !s[j - 1];
      }
    }
  }

  lemma {:induction false} ZeroBefore(r: Register, n: nat)
    requires FeedAll(r, Zeros(n)) == Zeros(16)
    ensures r == Zeros(16)
    decreases n
  {
    if n > 0 {
      var s := Feed(r, false);
      assert Zeros(n)[1..] == Zeros(n - 1);
      ZeroBefore(s, n - 1);
      assert !s[15];
      forall j | 0 <= j < 16 ensures !r[j] {
        if j > 0 { assert !s[j - 1]; }
      }
    }
  }

  ghost predicate Window(d: seq<bool>, lo: nat, hi: nat)
    requires lo <= hi <= |d|
  {
    && (forall i | 0 <= i < lo :: !d[i]) && (forall i | hi <= i < |d| :: !d[i])
  }

  lemma BurstNonzero(d: seq<bool>, lo: nat, hi: nat)
    requires lo < hi <= |d| && hi - lo <= 16
    requires Window(d, lo, hi) && d[lo]
    ensures Crc(d) != Zeros(16)
  {
    var first: Register := Feed(Zeros(16), true);
    assert d == Zeros(lo) + d[lo..];
    FeedZeros(lo);
    FeedConcat(Zeros(16), Zeros(lo), d[lo..]);
    assert d[lo..][1..] == d[lo + 1..hi] + Zeros(|d| - hi);
    FeedConcat(first, d[lo + 1..hi], Zeros(|d| - hi));
    assert first[15];
    if Crc(d) == Zeros(16) {
      ZeroBefore(FeedAll(first, d[lo + 1..hi]), |d| - hi);
      TrailingBefore(first, d[lo + 1..hi], 16);
    }
  }

  ghost predicate DifferInBurst(a: seq<bool>, b: seq<bool>, lo: nat, width: nat)
    requires |a| == |b|
  {
    && a != b
    && forall i | 0 <= i < |a| && a[i] != b[i] :: lo <= i < lo + width
  }

  lemma {:induction false} FirstDifference(a: seq<bool>, b: seq<bool>) returns (f: nat)
    requires |a| == |b| && a != b
    ensures f < |a| && a[f] != b[f]
    ensures forall i | 0 <= i < f :: a[i] == b[i]
    decreases |a|
  {
    if a[0] != b[0] {
      f := 0;
    } else {
      assert a == [a[0]] + a[1..] && b == [b[0]] + b[1..];
      f := FirstDifference(a[1..], b[1..]);
      f := f + 1;
      assert forall i | 0 < i < f :: a[i] == a[1..][i - 1] && b[i] == b[1..][i - 1];
    }
  }

  // Appending sixteen bits leaves remainder zero exactly when they are the remainder.
  lemma ResidueExactly(bits: seq<bool>, tail: Register)
    ensures Crc(bits + tail) == Zeros(16) <==> Crc(bits) == tail
  {
    var r := Crc(bits);
    FeedConcat(Zeros(16), bits, tail);
    assert r[..16] == r && r[16..] + Zeros(16) == Zeros(16);
    FeedHigh(r, tail);
    var d := Xor(r, tail);
    assert Xor(Zeros(16), Crc(d)) == Crc(d);
    if r == tail {
      XorSelf(r);
      FeedZeros(16);
    } else {
      var f := FirstDifference(r, tail);
      BurstNonzero(d, f, 16);
    }
  }

  lemma XorSelf(x: seq<bool>)
    ensures Xor(x, x) == Zeros(|x|)
  {
  }

  lemma CrcLinear(a: seq<bool>, b: seq<bool>)
    requires |a| == |b|
    ensures Crc(Xor(a, b)) == Xor(Crc(a), Crc(b))
  {
    XorSelf(Zeros(16));
    FeedLinear(Zeros(16), Zeros(16), a, b);
  }

  lemma BurstDetected(a: seq<bool>, b: seq<bool>, lo: nat)
    requires |a| == |b| && DifferInBurst(a, b, lo, 16)
    ensures Crc(a) != Crc(b)
  {
    var f := FirstDifference(a, b);
    BurstNonzero(Xor(a, b), f, if lo + 16 <= |a| then lo + 16 else |a|);
    CrcLinear(a, b);
    XorSelf(Crc(a));
  }

  // Parity
  predicate Odd(x: seq<bool>) { if x == [] then false else x[0] != Odd(x[1..]) }

  lemma {:induction false} OddXor(x: seq<bool>, y: seq<bool>)
    requires |x| == |y|
    ensures Odd(Xor(x, y)) == (Odd(x) != Odd(y))
  {
    if x != [] {
      assert Xor(x, y)[1..] == Xor(x[1..], y[1..]);
      OddXor(x[1..], y[1..]);
    }
  }

  // division
  predicate At(q: seq<bool>, i: int) { 0 <= i < |q| && q[i] }

  function TimesG(q: seq<bool>): (p: seq<bool>)
    ensures |p| == |q| + 16
  {
    seq(|q| + 16, i => (At(q, i) != At(q, i - 4)) != (At(q, i - 11) != At(q, i - 16)))
  }

  function Quotient(m: seq<bool>): (q: seq<bool>)
    ensures |q| == |m|
  {
    if m == [] then [] else
      var n := |m| - 1;
      Quotient(m[..n]) + [Crc(m[..n])[0] != m[n]]
  }

  lemma {:induction false} OddConcat(x: seq<bool>, y: seq<bool>)
    ensures Odd(x + y) == (Odd(x) != Odd(y))
  {
    if x == [] {
      assert x + y == y;
    } else {
      assert (x + y)[1..] == x[1..] + y;
      OddConcat(x[1..], y);
    }
  }

  lemma {:induction false} OddZeros(n: nat)
    ensures !Odd(Zeros(n))
  {
    if n > 0 {
      assert Zeros(n)[1..] == Zeros(n - 1);
      OddZeros(n - 1);
    }
  }

  lemma OddFeed(r: Register, bit: bool)
    ensures Odd(Feed(r, bit)) == (Odd(r) != bit)
  {
    var t := r[0] != bit;
    var taps := Zeros(3) + ([t] + (Zeros(6) + ([t] + (Zeros(4) + [t]))));
    assert Feed(r, bit) == Xor(r[1..] + [false], taps);
    OddXor(r[1..] + [false], taps);
    OddConcat(r[1..], [false]);
    OddZeros(3);
    OddZeros(6);
    OddZeros(4);
    OddConcat(Zeros(3), [t] + (Zeros(6) + ([t] + (Zeros(4) + [t]))));
    OddConcat([t], Zeros(6) + ([t] + (Zeros(4) + [t])));
    OddConcat(Zeros(6), [t] + (Zeros(4) + [t]));
    OddConcat([t], Zeros(4) + [t]);
    OddConcat(Zeros(4), [t]);
  }

  lemma {:induction false} OddFeedAll(r: Register, x: seq<bool>)
    ensures Odd(FeedAll(r, x)) == (Odd(r) != Odd(x))
    decreases |x|
  {
    if x != [] {
      OddFeed(r, x[0]);
      OddFeedAll(Feed(r, x[0]), x[1..]);
    }
  }

  lemma OddErrorsDetected(a: seq<bool>, b: seq<bool>)
    requires |a| == |b| && Odd(Xor(a, b))
    ensures Crc(a) != Crc(b)
  {
    OddXor(a, b);
    OddZeros(16);
    OddFeedAll(Zeros(16), a);
    OddFeedAll(Zeros(16), b);
  }

  predicate TapAfter(n: int, i: int) { i == n || i == n + 4 || i == n + 11 || i == n + 16 }

  lemma TimesGSnoc(q: seq<bool>, t: bool, i: nat)
    requires i < |q| + 17
    ensures TimesG(q + [t])[i] == ((i < |q| + 16 && TimesG(q)[i]) != (t && TapAfter(|q|, i)))
  {
  }

  // q and r are a quotient and a remainder of m * x^16.
  predicate IsDivision(m: seq<bool>, q: seq<bool>, r: Register) {
    |q| == |m| && m + Zeros(16) == Xor(TimesG(q), Zeros(|m|) + r)
  }

  lemma {:induction false} Division(m: seq<bool>)
    ensures IsDivision(m, Quotient(m), Crc(m))
    decreases |m|
  {
    if m == [] {
      assert m + Zeros(16) == Xor(TimesG([]), Zeros(0) + Zeros(16));
    } else {
      var n := |m| - 1;
      Division(m[..n]);
      assert m == m[..n] + [m[n]];
      FeedConcat(Zeros(16), m[..n], [m[n]]);
      DivisionStep(m[..n], Quotient(m[..n]), Crc(m[..n]), m[n]);
    }
  }

  lemma DivisionStep(m: seq<bool>, q: seq<bool>, r: Register, bit: bool)
    requires IsDivision(m, q, r)
    ensures IsDivision(m + [bit], q + [r[0] != bit], Feed(r, bit))
  {
    var lhs, rem := m + [bit] + Zeros(16), Zeros(|m| + 1) + Feed(r, bit);
    var p := TimesG(q + [r[0] != bit]);
    forall i | 0 <= i < |lhs| ensures lhs[i] == Xor(p, rem)[i] {
      TimesGSnoc(q, r[0] != bit, i);
      assert i < |m| + 16 ==> (m + Zeros(16))[i] == Xor(TimesG(q), Zeros(|m|) + r)[i];
    }
  }

  lemma {:induction false} DivisionUnique(m: seq<bool>, q: seq<bool>, r: Register)
    requires IsDivision(m, q, r)
    ensures q == Quotient(m) && r == Crc(m)
  {
    Division(m);
    var q', r' := Quotient(m), Crc(m);
    QuotientPrefix(m, q, r, q', r', |m|);
    assert q == q[..|m|] && q' == q'[..|m|];
    forall j | 0 <= j < 16 ensures r[j] == r'[j] {
      assert Xor(TimesG(q), Zeros(|m|) + r)[|m| + j] == Xor(TimesG(q'), Zeros(|m|) + r')[|m| + j];
    }
  }

  lemma {:induction false} QuotientPrefix(m: seq<bool>, q: seq<bool>, r: Register, q': seq<bool>, r': Register, k: nat)
    requires |q| == |m| == |q'| && k <= |m|
    requires Xor(TimesG(q), Zeros(|m|) + r) == Xor(TimesG(q'), Zeros(|m|) + r')
    ensures q[..k] == q'[..k]
  {
    if k > 0 {
      QuotientPrefix(m, q, r, q', r', k - 1);
      var i := k - 1;
      assert Xor(TimesG(q), Zeros(|m|) + r)[i] == Xor(TimesG(q'), Zeros(|m|) + r')[i];
      assert forall j | 0 <= j < i :: q[..i][j] == q'[..i][j];
      assert q[i] == q'[i];
    }
  }
}
