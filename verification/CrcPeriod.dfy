/**
 The powers of x modulo x^16 + x^12 + x^5 + 1, the generator of crc16.c: x^n is 1 exactly when n is a multiple
 of 32767.  A power is what n steps without input make of the word 1.
 */
module CrcPeriod {
  import opened Common
  import opened Crc16

  function Up(w: bv16, n: nat): bv16 { if n == 0 then w else Step(Up(w, n - 1), 0) }

  function Power(n: nat): bv16 { Up(1, n) }

  lemma {:induction false} UpSum(w: bv16, m: nat, n: nat)
    ensures Up(w, m + n) == Up(Up(w, m), n)
    decreases n
  {
    hide Step;
    if n > 0 {
      UpSum(w, m, n - 1);
    }
  }

  lemma StepInjective(v: bv16, w: bv16)
    requires Step(v, 0) == Step(w, 0)
    ensures v == w
  {
  }

  lemma {:induction false} UpInjective(v: bv16, w: bv16, n: nat)
    requires Up(v, n) == Up(w, n)
    ensures v == w
  {
    hide Step;
    if n > 0 {
      StepInjective(Up(v, n - 1), Up(w, n - 1));
      UpInjective(v, w, n - 1);
    }
  }

  // ---------------------------------------------------------------- products

  // One more bit of `v`, the one under the mask, in the product of `v` and `w`.
  function MulStep(acc: bv16, v: bv16, m: bv16, w: bv16): bv16 {
    XorWords(Step(acc, 0), if Has(v, m) then w else 0)
  }

  function MulNibble(acc: bv16, v: bv16, m: bv16, w: bv16): bv16 {
    var a1 := MulStep(acc, v, m, w);
    var a2 := MulStep(a1, v, m >> 1, w);
    var a3 := MulStep(a2, v, m >> 2, w);
    MulStep(a3, v, m >> 3, w)
  }

  function Mul(v: bv16, w: bv16): bv16 {
    MulNibble(MulNibble(MulNibble(MulNibble(0, v, 0x8000, w), v, 0x0800, w), v, 0x0080, w), v, 0x0008, w)
  }

  lemma Nibble0(v: bv16)
    ensures MulNibble(0, v, 0x8000, 1) == v >> 12
  {
  }

  lemma Nibble1(v: bv16)
    ensures MulNibble(v >> 12, v, 0x0800, 1) == v >> 8
  {
  }

  lemma Nibble2(v: bv16)
    ensures MulNibble(v >> 8, v, 0x0080, 1) == v >> 4
  {
  }

  lemma Nibble3(v: bv16)
    ensures MulNibble(v >> 4, v, 0x0008, 1) == v
  {
  }

  lemma MulOne(v: bv16)
    ensures Mul(v, 1) == v
  {
    hide MulNibble;
    Nibble0(v);
    Nibble1(v);
    Nibble2(v);
    Nibble3(v);
  }

  lemma StepBits(v: bv16, w: bv16)
    ensures Step(v ^ w, 0) == Step(v, 0) ^ Step(w, 0)
  {
  }

  lemma StepXor(v: bv16, w: bv16)
    ensures Step(XorWords(v, w), 0) == XorWords(Step(v, 0), Step(w, 0))
  {
    hide Step;
    StepBits(v, w);
  }

  lemma XorZero(w: bv16)
    ensures XorWords(w, 0) == w
  {
  }

  lemma MulStepUp(acc: bv16, v: bv16, m: bv16, w: bv16)
    ensures MulStep(Step(acc, 0), v, m, Step(w, 0)) == Step(MulStep(acc, v, m, w), 0)
  {
    hide Step, Has, XorWords;
    StepXor(Step(acc, 0), w);
    XorZero(Step(acc, 0));
    XorZero(Step(Step(acc, 0), 0));
  }

  lemma MulNibbleUp(acc: bv16, v: bv16, m: bv16, w: bv16)
    ensures MulNibble(Step(acc, 0), v, m, Step(w, 0)) == Step(MulNibble(acc, v, m, w), 0)
  {
    hide MulStep, Step;
    var a1 := MulStep(acc, v, m, w);
    var a2 := MulStep(a1, v, m >> 1, w);
    var a3 := MulStep(a2, v, m >> 2, w);
    MulStepUp(acc, v, m, w);
    MulStepUp(a1, v, m >> 1, w);
    MulStepUp(a2, v, m >> 2, w);
    MulStepUp(a3, v, m >> 3, w);
  }

  lemma StepOfZero()
    ensures Step(0, 0) == 0
  {
  }

  lemma MulUp(v: bv16, w: bv16)
    ensures Mul(v, Step(w, 0)) == Step(Mul(v, w), 0)
  {
    hide MulNibble, Step;
    StepOfZero();
    var a1 := MulNibble(0, v, 0x8000, w);
    var a2 := MulNibble(a1, v, 0x0800, w);
    var a3 := MulNibble(a2, v, 0x0080, w);
    MulNibbleUp(0, v, 0x8000, w);
    MulNibbleUp(a1, v, 0x0800, w);
    MulNibbleUp(a2, v, 0x0080, w);
    MulNibbleUp(a3, v, 0x0008, w);
  }

  lemma {:induction false} UpIsMul(v: bv16, n: nat)
    ensures Up(v, n) == Mul(v, Power(n))
  {
    hide Mul, Step;
    if n == 0 {
      MulOne(v);
    } else {
      UpIsMul(v, n - 1);
      MulUp(v, Power(n - 1));
    }
  }

  lemma PowerSum(m: nat, n: nat)
    ensures Power(m + n) == Mul(Power(m), Power(n))
  {
    hide Mul, Step, Up;
    UpSum(1, m, n);
    UpIsMul(Power(m), n);
  }

  // ---------------------------------------------------------------- some powers

  ghost predicate Is(n: nat, w: bv16) { Power(n) == w }

  lemma IsX()
    ensures Is(1, 0x0002)
  {
  }

  lemma Multiply(m: nat, v: bv16, n: nat, w: bv16, product: bv16)
    requires Is(m, v) && Is(n, w) && Mul(v, w) == product
    ensures Is(m + n, product)
  {
    hide Mul, Power;
    PowerSum(m, n);
  }

  lemma Products0()
    ensures Mul(0x0002, 0x0002) == 0x0004
    ensures Mul(0x0004, 0x0004) == 0x0010
    ensures Mul(0x0010, 0x0010) == 0x0100
    ensures Mul(0x0100, 0x0100) == 0x1021
    ensures Mul(0x1021, 0x1021) == 0x3730
  {
  }

  lemma Products1()
    ensures Mul(0x3730, 0x3730) == 0xB861
    ensures Mul(0xB861, 0xB861) == 0xAEFC
    ensures Mul(0xAEFC, 0xAEFC) == 0x8E29
    ensures Mul(0x8E29, 0x8E29) == 0x13FC
    ensures Mul(0x13FC, 0x13FC) == 0x36C4
  {
  }

  lemma Products2()
    ensures Mul(0x36C4, 0x36C4) == 0xFD50
    ensures Mul(0xFD50, 0xFD50) == 0xAA9E
    ensures Mul(0xAA9E, 0xAA9E) == 0x881C
    ensures Mul(0x881C, 0x881C) == 0x4458
    ensures Mul(0x4458, 0x4458) == 0x0002
  {
  }

  lemma Products3()
    ensures Mul(0xAEFC, 0xB861) == 0x650B
    ensures Mul(0x650B, 0x1021) == 0x45B4
    ensures Mul(0x45B4, 0x0100) == 0xAC61
    ensures Mul(0xAC61, 0x0002) == 0x48E3
    ensures Mul(0x36C4, 0x3730) == 0xF147
  {
  }

  lemma Products4()
    ensures Mul(0xF147, 0x0002) == 0xF2AF
    ensures Mul(0xAA9E, 0x13FC) == 0x54A0
    ensures Mul(0x54A0, 0xB861) == 0x0106
    ensures Mul(0x0106, 0x0100) == 0x1621
    ensures Mul(0x1621, 0x0002) == 0x2C42
  {
  }

  // x^32768 is x again, and x^217, x^1057 and x^4681 are not 1.
  lemma SomePowers()
    ensures Is(1, 0x0002) && Is(16, 0x1021) && Is(32768, 0x0002)
    ensures Is(217, 0x48E3) && Is(1057, 0xF2AF) && Is(4681, 0x2C42)
  {
    hide *;
    IsX();
    Products0();
    Multiply(1, 0x0002, 1, 0x0002, 0x0004);
    Multiply(2, 0x0004, 2, 0x0004, 0x0010);
    Multiply(4, 0x0010, 4, 0x0010, 0x0100);
    Multiply(8, 0x0100, 8, 0x0100, 0x1021);
    Multiply(16, 0x1021, 16, 0x1021, 0x3730);
    Products1();
    Multiply(32, 0x3730, 32, 0x3730, 0xB861);
    Multiply(64, 0xB861, 64, 0xB861, 0xAEFC);
    Multiply(128, 0xAEFC, 128, 0xAEFC, 0x8E29);
    Multiply(256, 0x8E29, 256, 0x8E29, 0x13FC);
    Multiply(512, 0x13FC, 512, 0x13FC, 0x36C4);
    Products2();
    Multiply(1024, 0x36C4, 1024, 0x36C4, 0xFD50);
    Multiply(2048, 0xFD50, 2048, 0xFD50, 0xAA9E);
    Multiply(4096, 0xAA9E, 4096, 0xAA9E, 0x881C);
    Multiply(8192, 0x881C, 8192, 0x881C, 0x4458);
    Multiply(16384, 0x4458, 16384, 0x4458, 0x0002);
    Products3();
    Multiply(128, 0xAEFC, 64, 0xB861, 0x650B);
    Multiply(192, 0x650B, 16, 0x1021, 0x45B4);
    Multiply(208, 0x45B4, 8, 0x0100, 0xAC61);
    Multiply(216, 0xAC61, 1, 0x0002, 0x48E3);
    Multiply(1024, 0x36C4, 32, 0x3730, 0xF147);
    Products4();
    Multiply(1056, 0xF147, 1, 0x0002, 0xF2AF);
    Multiply(4096, 0xAA9E, 512, 0x13FC, 0x54A0);
    Multiply(4608, 0x54A0, 64, 0xB861, 0x0106);
    Multiply(4672, 0x0106, 8, 0x0100, 0x1621);
    Multiply(4680, 0x1621, 1, 0x0002, 0x2C42);
  }

  // ---------------------------------------------------------------- the period of x

  ghost predicate Period(n: nat) { Power(n) == 1 }

  lemma PeriodDifference(m: nat, n: nat)
    requires m <= n && Period(m) && Period(n)
    ensures Period(n - m)
  {
    hide Up;
    UpSum(1, n - m, m);
    UpInjective(Power(n - m), 1, m);
  }

  lemma {:induction false} PeriodMultiple(m: nat, k: nat)
    requires Period(m)
    ensures Period(k * m)
  {
    if k > 0 {
      PeriodMultiple(m, k - 1);
      assert k * m == (k - 1) * m + m;
      hide Up;
      UpSum(1, (k - 1) * m, m);
    }
  }

  lemma PeriodRemainder(m: nat, n: nat)
    requires m > 0 && Period(m) && Period(n)
    ensures Period(n % m)
  {
    hide Period;
    PeriodMultiple(m, n / m);
    assert n - n / m * m == n % m;
    PeriodDifference(n / m * m, n);
  }

  lemma MultipleHasNoRest(k: nat, g: nat)
    requires g > 0
    ensures k * g % g == 0
  {
    var q, r := k * g / g, k * g % g;
    assert (k - q) * g == r;
    if k > q {
      MulMonotone(1, k - q, g);
    }
  }

  lemma DividesSum(g: nat, m: nat, n: nat)
    requires g > 0 && m > 0 && m % g == 0 && n % m % g == 0
    ensures n % g == 0
  {
    var a, b, k := m / g, n % m / g, n / m;
    assert m == a * g && n % m == b * g && n == k * m + n % m;
    assert k * (a * g) == (k * a) * g;
    assert (k * a) * g + b * g == (k * a + b) * g;
    MultipleHasNoRest(k * a + b, g);
  }

  // Two periods have a common divisor that is one.
  lemma {:induction false} CommonPeriod(m: nat, n: nat) returns (g: nat)
    requires m > 0 && Period(m) && Period(n)
    ensures g > 0 && Period(g) && m % g == 0 && n % g == 0
    decreases m
  {
    hide Period;
    if n % m == 0 {
      g := m;
    } else {
      PeriodRemainder(m, n);
      g := CommonPeriod(n % m, m);
      DividesSum(g, m, n);
    }
  }

  // 7, 31 and 151 are the only divisors of 32767 from 2 to k.
  predicate OnlyThree(k: nat) {
    if k <= 1 then true
    else if 32767 % k == 0 && k != 7 && k != 31 && k != 151 then false
    else OnlyThree(k - 1)
  }

  lemma {:induction false} OnlyThreeBelow(n: nat, k: nat)
    requires OnlyThree(n) && 1 < k <= n && 32767 % k == 0
    ensures k == 7 || k == 31 || k == 151
  {
    if k < n {
      OnlyThreeBelow(n - 1, k);
    }
  }

  lemma DivisorsTo60()
    ensures OnlyThree(60)
  {
    assert OnlyThree(10);
    assert OnlyThree(20);
    assert OnlyThree(30);
    assert OnlyThree(40);
    assert OnlyThree(50);
  }

  lemma DivisorsTo120()
    requires OnlyThree(60)
    ensures OnlyThree(120)
  {
    assert OnlyThree(70);
    assert OnlyThree(80);
    assert OnlyThree(90);
    assert OnlyThree(100);
    assert OnlyThree(110);
  }

  lemma DivisorsTo181()
    requires OnlyThree(120)
    ensures OnlyThree(181)
  {
    assert OnlyThree(130);
    assert OnlyThree(140);
    assert OnlyThree(150);
    assert OnlyThree(160);
    assert OnlyThree(170);
    assert OnlyThree(180);
  }

  // So every divisor of 32767 but itself divides 4681, 1057 or 217.
  lemma ProperDivisors(g: nat)
    requires 0 < g < 32767 && 32767 % g == 0
    ensures 4681 % g == 0 || 1057 % g == 0 || 217 % g == 0
  {
    hide OnlyThree;
    DivisorsTo60();
    DivisorsTo120();
    DivisorsTo181();
    var m := 32767 / g;
    assert 32767 == m * g;
    if g <= 181 {
      if g > 1 { OnlyThreeBelow(181, g); }
    } else {
      MultipleHasNoRest(g, m);
      OnlyThreeBelow(181, m);
    }
  }

  lemma FullPeriod()
    ensures Period(32767)
  {
    hide Up;
    SomePowers();
    UpSum(1, 32767, 1);
    UpInjective(Power(32767), 1, 1);
  }

  lemma NoShorterPeriod()
    ensures !Period(217) && !Period(1057) && !Period(4681)
  {
    hide Up;
    SomePowers();
  }

  // x^n is 1 exactly when n is a multiple of 32767.
  lemma PeriodExactly(n: nat)
    ensures Period(n) <==> n % 32767 == 0
  {
    hide Period;
    FullPeriod();
    NoShorterPeriod();
    if n % 32767 == 0 {
      PeriodMultiple(32767, n / 32767);
      assert n / 32767 * 32767 == n;
    }
    if Period(n) {
      var g := CommonPeriod(32767, n);
      if g < 32767 {
        ProperDivisors(g);
        var q := if 4681 % g == 0 then 4681 else if 1057 % g == 0 then 1057 else 217;
        PeriodMultiple(g, q / g);
        assert q / g * g == q;
      } else {
        assert g == 32767;
      }
    }
  }
}
