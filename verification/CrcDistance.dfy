/**
 How many flipped bits the checksum of crc16.c catches: any one, two or three in buffers of up to 4095 bytes,
 but not every two in longer ones, and never every four.
 */
module CrcDistance {
  import opened Crc16
  import opened CrcPeriod
  import opened CrcSpec

  // ---------------------------------------------------------------- the number of set bits

  function Weight(x: seq<bool>): nat {
    if x == [] then 0 else (if x[0] then 1 else 0) + Weight(x[1..])
  }

  lemma {:induction false} WeightParity(x: seq<bool>)
    ensures Odd(x) <==> Weight(x) % 2 == 1
  {
    if x != [] {
      WeightParity(x[1..]);
    }
  }

  lemma {:induction false} NoWeight(x: seq<bool>)
    requires Weight(x) == 0
    ensures x == Zeros(|x|)
  {
    if x != [] {
      NoWeight(x[1..]);
      assert x == [x[0]] + x[1..];
    }
  }

  // Two set bits with `gap` clear ones between them.
  function Pair(lo: nat, gap: nat, tail: nat): (x: seq<bool>)
    ensures |x| == lo + gap + tail + 2
  {
    Zeros(lo) + ([true] + (Zeros(gap) + ([true] + Zeros(tail))))
  }

  lemma {:induction false} SingleBit(x: seq<bool>) returns (gap: nat, tail: nat)
    requires Weight(x) == 1
    ensures x == Zeros(gap) + ([true] + Zeros(tail))
  {
    if x[0] {
      NoWeight(x[1..]);
      gap, tail := 0, |x| - 1;
      assert x == [true] + x[1..];
    } else {
      gap, tail := SingleBit(x[1..]);
      assert x == [false] + x[1..] && Zeros(gap + 1) == [false] + Zeros(gap);
      gap := gap + 1;
    }
  }

  lemma {:induction false} WeightTwo(x: seq<bool>) returns (lo: nat, gap: nat, tail: nat)
    requires Weight(x) == 2
    ensures x == Pair(lo, gap, tail)
  {
    if x[0] {
      gap, tail := SingleBit(x[1..]);
      lo := 0;
      assert x == [true] + x[1..];
    } else {
      lo, gap, tail := WeightTwo(x[1..]);
      assert x == [false] + x[1..] && Zeros(lo + 1) == [false] + Zeros(lo);
      lo := lo + 1;
    }
  }

  // ---------------------------------------------------------------- two flipped bits

  // The remainder of x^16, which a single bit leaves in the register, and that of x^15.
  function First(): Register { Feed(Zeros(16), true) }

  function Last(): Register { [true] + Zeros(15) }

  lemma OnlyLastCancels(r: Register)
    ensures Feed(r, true) == Zeros(16) <==> r == Last()
  {
    var s := Feed(r, true);
    if s == Zeros(16) {
      assert !s[15];
      forall j | 0 < j < 16 ensures !r[j] {
        assert !s[j - 1];
      }
    }
  }

  lemma PairLeadsBack(lo: nat, gap: nat, tail: nat)
    ensures Crc(Pair(lo, gap, tail)) == Zeros(16) <==> FeedAll(First(), Zeros(gap)) == Last()
  {
    hide Feed;
    var rest := [true] + Zeros(tail);
    FeedZeros(lo);
    FeedConcat(Zeros(16), Zeros(lo), [true] + (Zeros(gap) + rest));
    assert ([true] + (Zeros(gap) + rest))[1..] == Zeros(gap) + rest;
    FeedConcat(First(), Zeros(gap), rest);
    var r := FeedAll(First(), Zeros(gap));
    OnlyLastCancels(r);
    assert rest[1..] == Zeros(tail);
    FeedZeros(tail);
    if FeedAll(Feed(r, true), Zeros(tail)) == Zeros(16) {
      ZeroBefore(Feed(r, true), tail);
    }
  }

  lemma {:induction false} UpIsFeed(w: bv16, n: nat)
    ensures WordBits(Up(w, n)) == FeedAll(WordBits(w), Zeros(n))
  {
    hide Step, WordBits, Feed;
    if n > 0 {
      UpIsFeed(w, n - 1);
      assert Zeros(n) == Zeros(n - 1) + [false];
      FeedConcat(WordBits(w), Zeros(n - 1), [false]);
      StepIsFeed(Up(w, n - 1), false);
    }
  }

  lemma FirstStep()
    ensures Step(0, Numeral(true)) == 0x1021 && Step(0x8000, 0) == 0x1021
  {
  }

  lemma FirstWord()
    ensures WordBits(0x1021) == First()
  {
    hide Step, Numeral, WordBits;
    FirstStep();
    StepIsFeed(0, true);
    ZeroWord();
  }

  lemma LastWord()
    ensures WordBits(0x8000) == Last()
  {
  }

  lemma FirstAndLastPower()
    ensures Power(16) == 0x1021 && Power(15) == 0x8000
  {
    hide Step;
    SomePowers();
    FirstStep();
    UpSum(1, 15, 1);
    StepInjective(Power(15), 0x8000);
  }

  lemma LeadsBackExactly(gap: nat)
    ensures FeedAll(First(), Zeros(gap)) == Last() <==> Period(gap + 1)
  {
    hide Up, WordBits, FeedAll, First, Last;
    FirstWord();
    LastWord();
    FirstAndLastPower();
    UpIsFeed(0x1021, gap);
    if FeedAll(First(), Zeros(gap)) == Last() {
      WordBitsInjective(Up(0x1021, gap), 0x8000);
    }
    UpSum(1, 16, gap);
    UpSum(1, gap + 1, 15);
    if Up(0x1021, gap) == 0x8000 {
      UpInjective(Power(gap + 1), 1, 15);
    }
  }

  // Two flipped bits go unnoticed exactly when their distance is a multiple of 32767.
  lemma PairUnnoticed(lo: nat, gap: nat, tail: nat)
    ensures Crc(Pair(lo, gap, tail)) == Zeros(16) <==> (gap + 1) % 32767 == 0
  {
    hide Pair, Period, First, Last, FeedAll;
    PairLeadsBack(lo, gap, tail);
    LeadsBackExactly(gap);
    PeriodExactly(gap + 1);
  }

  // ---------------------------------------------------------------- what is caught

  // The buffers differ in one, two or three bits.
  ghost predicate FewErrors(a: seq<bv8>, b: seq<bv8>) {
    |a| == |b| && 1 <= Weight(Xor(MessageBits(a), MessageBits(b))) <= 3
  }

  // Then, in at most 4095 bytes, their checksums differ.
  lemma ThreeErrorsDetected(a: seq<bv8>, b: seq<bv8>)
    requires |a| <= 4095 && FewErrors(a, b)
    ensures Checksum(a) != Checksum(b)
  {
    hide MessageBits, WordBits, FeedAll, Pair, Weight;
    var d := Xor(MessageBits(a), MessageBits(b));
    WeightParity(d);
    if Weight(d) == 2 {
      var lo, gap, tail := WeightTwo(d);
      PairUnnoticed(lo, gap, tail);
      CrcLinear(MessageBits(a), MessageBits(b));
      ChecksumIsCrc(a);
      ChecksumIsCrc(b);
      XorSelf(Crc(MessageBits(a)));
    } else {
      ChecksumDetectsOddErrors(a, b);
    }
  }

  // ---------------------------------------------------------------- what is not

  // The generator itself, x^16 + x^12 + x^5 + 1, behind n bytes of nothing.
  function Generator(n: nat): (e: seq<bv8>)
    ensures |e| == n + 3
  {
    seq(n, _ => 0) + [0x01, 0x10, 0x21]
  }

  lemma {:induction false} WeightConcat(x: seq<bool>, y: seq<bool>)
    ensures Weight(x + y) == Weight(x) + Weight(y)
  {
    if x == [] {
      assert x + y == y;
    } else {
      assert (x + y)[1..] == x[1..] + y;
      WeightConcat(x[1..], y);
    }
  }

  lemma {:induction false} ZerosWeigh(n: nat)
    ensures Weight(Zeros(n)) == 0
  {
    if n > 0 {
      assert Zeros(n)[1..] == Zeros(n - 1);
      ZerosWeigh(n - 1);
    }
  }

  lemma {:induction false} ZeroBytes(n: nat)
    ensures MessageBits(seq(n, _ => 0)) == Zeros(8 * n)
  {
    hide ByteBits;
    if n > 0 {
      ZeroBytes(n - 1);
      var z: seq<bv8> := seq(n, _ => 0);
      assert z[..n - 1] == seq(n - 1, _ => 0);
      ByteOfZeros();
    }
  }

  lemma ByteOfZeros()
    ensures ByteBits(0) == Zeros(8)
  {
  }

  lemma GeneratorBytes()
    ensures ByteBits(0x01) == Zeros(7) + [true]
    ensures ByteBits(0x10) == Zeros(3) + ([true] + Zeros(4))
    ensures ByteBits(0x21) == Zeros(2) + ([true] + (Zeros(4) + [true]))
  {
  }

  lemma OneMore(bytes: seq<bv8>, b: bv8)
    ensures MessageBits(bytes + [b]) == MessageBits(bytes) + ByteBits(b)
  {
    hide ByteBits;
    assert (bytes + [b])[..|bytes|] == bytes;
  }

  lemma GeneratorBits(n: nat)
    ensures MessageBits(Generator(n)) == Zeros(8 * n) + ByteBits(0x01) + ByteBits(0x10) + ByteBits(0x21)
  {
    hide MessageBits, ByteBits;
    ZeroBytes(n);
    var z: seq<bv8> := seq(n, _ => 0);
    assert Generator(n) == z + [0x01] + [0x10] + [0x21];
    OneMore(z + [0x01] + [0x10], 0x21);
    OneMore(z + [0x01], 0x10);
    OneMore(z, 0x01);
  }

  lemma GeneratorWeight(n: nat)
    ensures Weight(MessageBits(Generator(n))) == 4
  {
    hide MessageBits, ByteBits, Generator;
    GeneratorBits(n);
    GeneratorBytes();
    var z := Zeros(8 * n);
    WeightConcat(z + ByteBits(0x01) + ByteBits(0x10), ByteBits(0x21));
    WeightConcat(z + ByteBits(0x01), ByteBits(0x10));
    WeightConcat(z, ByteBits(0x01));
    WeightConcat(Zeros(7), [true]);
    WeightConcat(Zeros(3), [true] + Zeros(4));
    WeightConcat(Zeros(2), [true] + (Zeros(4) + [true]));
    WeightConcat(Zeros(4), [true]);
    ZerosWeigh(8 * n);
    ZerosWeigh(7);
    ZerosWeigh(3);
    ZerosWeigh(2);
    ZerosWeigh(4);
  }

  lemma GeneratorUnnoticed(n: nat)
    ensures Checksum(Generator(n)) == 0
  {
    hide MessageBits, ByteBits, WordBits, Checksum;
    var head: seq<bv8> := seq(n, _ => 0) + [0x01];
    assert Generator(n) == head + [0x10, 0x21];
    AppendedChecksum(head, 0x10, 0x21);
    ChecksumOfOne(n);
  }

  lemma ChecksumOfOne(n: nat)
    ensures Checksum(seq(n, _ => 0) + [0x01]) == Word(0x10, 0x21)
  {
    WordOfGenerator();
    hide MessageBits, ByteBits, WordBits, Checksum, Word;
    var z: seq<bv8> := seq(n, _ => 0);
    ZeroBytes(n);
    OneMore(z, 0x01);
    GeneratorBytes();
    ChecksumIsCrc(z + [0x01]);
    var bits := Zeros(8 * n) + (Zeros(7) + [true]);
    assert bits == Zeros(8 * n + 7) + [true];
    FeedConcat(Zeros(16), Zeros(8 * n + 7), [true]);
    FeedZeros(8 * n + 7);
    FirstWord();
    WordBitsInjective(Checksum(z + [0x01]), 0x1021);
  }

  lemma WordOfGenerator()
    ensures Word(0x10, 0x21) == 0x1021
  {
  }

  // A pattern of remainder zero can be flipped in any buffer.
  lemma FlipUnnoticed(a: seq<bv8>, e: seq<bv8>)
    requires |e| == |a| && Checksum(e) == 0
    ensures Xor(MessageBits(a), MessageBits(XorBytes(a, e))) == MessageBits(e)
    ensures Checksum(XorBytes(a, e)) == Checksum(a)
  {
    hide MessageBits, Checksum;
    XorMessageBits(a, e);
    ChecksumLinear(a, e);
    XorZero(Checksum(a));
  }

  // Four flipped bits can go unnoticed, whatever buffer of three bytes or more they are flipped in.
  lemma FourErrorsUnnoticed(a: seq<bv8>) returns (b: seq<bv8>)
    requires |a| >= 3
    ensures |b| == |a| && Weight(Xor(MessageBits(a), MessageBits(b))) == 4 && Checksum(b) == Checksum(a)
  {
    hide MessageBits, Checksum, Weight;
    var e := Generator(|a| - 3);
    b := XorBytes(a, e);
    GeneratorWeight(|a| - 3);
    GeneratorUnnoticed(|a| - 3);
    FlipUnnoticed(a, e);
  }

  // The first bit and the one 32767 behind it, in n bytes.
  function FarApart(n: nat): (e: seq<bv8>)
    requires n >= 4096
    ensures |e| == n
  {
    [0x80] + seq(4094, _ => 0) + [0x01] + seq(n - 4096, _ => 0)
  }

  lemma FarApartBits(n: nat)
    requires n >= 4096
    ensures MessageBits(FarApart(n)) == Pair(0, 32766, 8 * (n - 4096))
  {
    hide MessageBits, ByteBits;
    var first: seq<bv8>, gap: seq<bv8>, rest: seq<bv8> := [0x80], seq(4094, _ => 0), seq(n - 4096, _ => 0);
    MessageBitsConcat(first + gap + [0x01], rest);
    OneMore(first + gap, 0x01);
    MessageBitsConcat(first, gap);
    TopBit();
    GeneratorBytes();
    ZeroBytes(4094);
    ZeroBytes(n - 4096);
    assert Zeros(7) + Zeros(8 * 4094) + Zeros(7) == Zeros(32766);
  }

  lemma TopBit()
    ensures MessageBits([0x80]) == [true] + Zeros(7)
  {
    assert [0x80 as bv8][..0] == [];
  }

  lemma PairWeight(lo: nat, gap: nat, tail: nat)
    ensures Weight(Pair(lo, gap, tail)) == 2
  {
    var rest := [true] + Zeros(tail);
    WeightConcat(Zeros(lo), [true] + (Zeros(gap) + rest));
    WeightConcat([true], Zeros(gap) + rest);
    WeightConcat(Zeros(gap), rest);
    WeightConcat([true], Zeros(tail));
    ZerosWeigh(lo);
    ZerosWeigh(gap);
    ZerosWeigh(tail);
  }

  // In a longer buffer two flipped bits can go unnoticed.
  lemma TwoErrorsUnnoticed(a: seq<bv8>) returns (b: seq<bv8>)
    requires |a| >= 4096
    ensures |b| == |a| && Weight(Xor(MessageBits(a), MessageBits(b))) == 2 && Checksum(b) == Checksum(a)
  {
    hide MessageBits, Checksum, Weight, Pair, WordBits, FarApart;
    var e := FarApart(|a|);
    b := XorBytes(a, e);
    FarApartBits(|a|);
    PairUnnoticed(0, 32766, 8 * (|a| - 4096));
    PairWeight(0, 32766, 8 * (|a| - 4096));
    ChecksumIsCrc(e);
    ZeroWord();
    WordBitsInjective(Checksum(e), 0);
    FlipUnnoticed(a, e);
  }

  // So one to three flipped bits are always caught exactly in buffers of at most 4095 bytes.
  lemma ThreeErrorsDetectedExactly(n: nat)
    ensures (forall a: seq<bv8>, b: seq<bv8> | |a| == n && FewErrors(a, b) :: Checksum(a) != Checksum(b)) <==>
      n <= 4095
  {
    hide MessageBits, Checksum, Weight;
    if n <= 4095 {
      forall a: seq<bv8>, b: seq<bv8> | |a| == n && FewErrors(a, b) ensures Checksum(a) != Checksum(b) {
        ThreeErrorsDetected(a, b);
      }
    } else {
      var a: seq<bv8> := seq(n, _ => 0);
      var b := TwoErrorsUnnoticed(a);
      assert FewErrors(a, b);
    }
  }
}
