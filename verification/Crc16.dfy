/**
 The table-driven CRC of crc16.c.  A byte is a `bv8`, the running checksum a `bv16`.
 `Step` is the bit-serial register of CrcSpec on machine words; the table lookup is proved
 equal to eight of its steps, so the fast loop computes the polynomial remainder.
 */
module Crc16 {
  import opened CrcSpec

  // ---------------------------------------------------------------- words as bits

  predicate Has(w: bv16, m: bv16) { w & m != 0 }

  // The mask of bit `j`, counted from the most significant one.
  function Mask(j: nat): bv16
    requires j < 16
  {
    if j == 0 then 0x8000
    else if j == 1 then 0x4000
    else if j == 2 then 0x2000
    else if j == 3 then 0x1000
    else if j == 4 then 0x0800
    else if j == 5 then 0x0400
    else if j == 6 then 0x0200
    else if j == 7 then 0x0100
    else if j == 8 then 0x0080
    else if j == 9 then 0x0040
    else if j == 10 then 0x0020
    else if j == 11 then 0x0010
    else if j == 12 then 0x0008
    else if j == 13 then 0x0004
    else if j == 14 then 0x0002
    else 0x0001
  }

  predicate Bit(w: bv16, j: nat)
    requires j < 16
  {
    Has(w, Mask(j))
  }

  function WordBits(w: bv16): (r: Register)
    ensures forall j: nat | j < 16 :: r[j] == Bit(w, j)
  {
    var r := seq(16, j requires 0 <= j < 16 => Bit(w, j));
    r
  }

  function ByteBits(b: bv8): (s: seq<bool>)
    ensures |s| == 8 && forall k: nat | k < 8 :: s[k] == Bit(b as bv16, 8 + k)
  {
    WordBits(b as bv16)[8..]
  }

  function MessageBits(bytes: seq<bv8>): (s: seq<bool>)
    ensures |s| == 8 * |bytes|
  {
    if bytes == [] then [] else MessageBits(bytes[..|bytes| - 1]) + ByteBits(bytes[|bytes| - 1])
  }

  lemma {:induction false} MessageBitsConcat(a: seq<bv8>, b: seq<bv8>)
    ensures MessageBits(a + b) == MessageBits(a) + MessageBits(b)
    decreases |b|
  {
    hide ByteBits;
    if b == [] {
      assert a + b == a;
    } else {
      var n := |b| - 1;
      assert (a + b)[..|a + b| - 1] == a + b[..n];
      MessageBitsConcat(a, b[..n]);
      assert MessageBits(a + b) == (MessageBits(a) + MessageBits(b[..n])) + ByteBits(b[n]);
    }
  }

  lemma {:induction false} MessageBitsAt(bytes: seq<bv8>, i: nat, k: nat)
    requires i < |bytes| && k < 8
    ensures MessageBits(bytes)[8 * i + k] == ByteBits(bytes[i])[k]
    decreases |bytes|
  {
    if i < |bytes| - 1 {
      MessageBitsAt(bytes[..|bytes| - 1], i, k);
    }
  }

  lemma SameMasks(v: bv16, w: bv16)
    requires Has(v, 0x8000) == Has(w, 0x8000) && Has(v, 0x4000) == Has(w, 0x4000)
    requires Has(v, 0x2000) == Has(w, 0x2000) && Has(v, 0x1000) == Has(w, 0x1000)
    requires Has(v, 0x0800) == Has(w, 0x0800) && Has(v, 0x0400) == Has(w, 0x0400)
    requires Has(v, 0x0200) == Has(w, 0x0200) && Has(v, 0x0100) == Has(w, 0x0100)
    requires Has(v, 0x0080) == Has(w, 0x0080) && Has(v, 0x0040) == Has(w, 0x0040)
    requires Has(v, 0x0020) == Has(w, 0x0020) && Has(v, 0x0010) == Has(w, 0x0010)
    requires Has(v, 0x0008) == Has(w, 0x0008) && Has(v, 0x0004) == Has(w, 0x0004)
    requires Has(v, 0x0002) == Has(w, 0x0002) && Has(v, 0x0001) == Has(w, 0x0001)
    ensures v == w
  {
  }

  lemma WordBitsInjective(v: bv16, w: bv16)
    requires WordBits(v) == WordBits(w)
    ensures v == w
  {
    hide Has;
    forall j: nat | j < 16 ensures Has(v, Mask(j)) == Has(w, Mask(j)) {
      assert WordBits(v)[j] == WordBits(w)[j];
    }
    assert Mask(0) == 0x8000 && Mask(1) == 0x4000 && Mask(2) == 0x2000 && Mask(3) == 0x1000;
    assert Mask(4) == 0x0800 && Mask(5) == 0x0400 && Mask(6) == 0x0200 && Mask(7) == 0x0100;
    assert Mask(8) == 0x0080 && Mask(9) == 0x0040 && Mask(10) == 0x0020 && Mask(11) == 0x0010;
    assert Mask(12) == 0x0008 && Mask(13) == 0x0004 && Mask(14) == 0x0002 && Mask(15) == 0x0001;
    SameMasks(v, w);
  }

  // ---------------------------------------------------------------- one bit at a time

  // The bit-serial register on machine words; `bit` is 0 or 1.
  function Step(w: bv16, bit: bv16): bv16 {
    var t := (w >> 15) ^ bit;
    (w << 1) ^ t ^ (t << 5) ^ (t << 12)
  }

  function Numeral(bit: bool): (p: bv16)
    ensures p < 2 && bit == (p == 1)
  {
    if bit then 1 else 0
  }

  function StepAll(w: bv16, bits: seq<bool>): bv16
    decreases |bits|
  {
    if bits == [] then w else StepAll(Step(w, Numeral(bits[0])), bits[1..])
  }

  lemma MaskFacts(j: nat)
    requires j < 16
    ensures Mask(j) & (Mask(j) - 1) == 0
    ensures Mask(j) >> 1 == if j < 15 then Mask(j + 1) else 0
    ensures Has(0x1021, Mask(j)) == Tap(j)
  {
  }

  lemma StepAtMask(w: bv16, p: bv16, m: bv16)
    requires p < 2 && m & (m - 1) == 0
    ensures Has(Step(w, p), m) == (Has(w, m >> 1) != (Has(0x1021, m) && (Has(w, 0x8000) != (p == 1))))
  {
    var t := (w >> 15) ^ p;
    assert t == 0 || t == 1;
    assert (t == 1) == (Has(w, 0x8000) != (p == 1));
  }

  lemma BitOfStep(w: bv16, p: bv16, j: nat)
    requires p < 2 && j < 16
    ensures Bit(Step(w, p), j) == ((j < 15 && Bit(w, j + 1)) != (Tap(j) && (Bit(w, 0) != (p == 1))))
  {
    assert Mask(0) == 0x8000;
    assert !Has(w, 0);
    hide Step, Has, Mask;
    MaskFacts(j);
    StepAtMask(w, p, Mask(j));
  }

  lemma StepIsFeed(w: bv16, bit: bool)
    ensures WordBits(Step(w, Numeral(bit))) == Feed(WordBits(w), bit)
  {
    var p := Numeral(bit);
    var v := Step(w, p);
    hide Step, Bit, Numeral;
    forall j: nat | j < 16 ensures WordBits(v)[j] == Feed(WordBits(w), bit)[j] {
      BitOfStep(w, p, j);
    }
  }

  lemma {:induction false} StepAllIsFeedAll(w: bv16, bits: seq<bool>)
    ensures WordBits(StepAll(w, bits)) == FeedAll(WordBits(w), bits)
    decreases |bits|
  {
    hide Step, Numeral, WordBits;
    if bits != [] {
      StepIsFeed(w, bits[0]);
      StepAllIsFeedAll(Step(w, Numeral(bits[0])), bits[1..]);
    }
  }

  // ---------------------------------------------------------------- eight bits at a time

  // The remainder of a single byte in closed form.
  function ByteRemainder(x: bv16): bv16 {
    var e := x ^ (x >> 4);
    e ^ (e << 5) ^ (e << 12)
  }

  lemma ByteRemainderStep(x: bv16, p: bv16)
    requires x < 128 && p < 2
    ensures ByteRemainder(ShiftIn(x, p)) == Step(ByteRemainder(x), p)
  {
  }

  // v with the bit p (0 or 1) shifted in.
  function ShiftIn(v: bv16, p: bv16): bv16 { (v << 1) | p }

  function XorWords(v: bv16, w: bv16): bv16 { v ^ w }

  function HighByte(w: bv16): bv16 { w >> 8 }

  function LowByte(w: bv16): bv16 { w & 0xFF }

  function ShiftByte(w: bv16): bv16 { w << 8 }

  // The number spelled by the first `k` bits.
  function Spelled(bits: seq<bool>, k: nat): bv16
    requires k <= |bits|
  {
    if k == 0 then 0 else ShiftIn(Spelled(bits, k - 1), Numeral(bits[k - 1]))
  }

  function Limit(k: nat): bv16
    requires k <= 8
  {
    if k == 0 then 0x01 else if k == 1 then 0x02 else if k == 2 then 0x04 else if k == 3 then 0x08
    else if k == 4 then 0x10 else if k == 5 then 0x20 else if k == 6 then 0x40 else if k == 7 then 0x80 else 0x100
  }

  lemma LimitDoubles(k: nat)
    requires k < 8
    ensures Limit(k) <= 0x80 && Limit(k + 1) == Limit(k) << 1
  {
  }

  lemma DoubleBelow(v: bv16, limit: bv16, p: bv16)
    requires v < limit <= 0x80 && p < 2
    ensures ShiftIn(v, p) < limit << 1
  {
  }

  lemma {:induction false} SpelledBelow(bits: seq<bool>, k: nat)
    requires k <= |bits| && k <= 8
    ensures Spelled(bits, k) < Limit(k)
    decreases k
  {
    if k > 0 {
      SpelledBelow(bits, k - 1);
      LimitDoubles(k - 1);
      var v, limit, p := Spelled(bits, k - 1), Limit(k - 1), Numeral(bits[k - 1]);
      hide Limit, Numeral;
      DoubleBelow(v, limit, p);
    }
  }

  lemma ShiftInMask(v: bv16, p: bv16, m: bv16)
    requires p < 2 && m & (m - 1) == 0
    ensures Has(ShiftIn(v, p), m) == if m == 1 then p == 1 else Has(v, m >> 1)
  {
  }

  lemma BitOfShiftIn(v: bv16, p: bv16, j: nat)
    requires p < 2 && j < 16
    ensures Bit(ShiftIn(v, p), j) == if j == 15 then p == 1 else Bit(v, j + 1)
  {
    assert (Mask(j) == 1) == (j == 15);
    hide Has, Mask;
    MaskFacts(j);
    ShiftInMask(v, p, Mask(j));
  }

  lemma ZeroBits(j: nat)
    requires j < 16
    ensures !Bit(0, j)
  {
  }

  lemma {:induction false} SpelledBits(bits: seq<bool>, k: nat)
    requires k <= |bits| && k <= 16
    ensures WordBits(Spelled(bits, k)) == Zeros(16 - k) + bits[..k]
    decreases k
  {
    var r := WordBits(Spelled(bits, k));
    if k == 0 {
      forall j: nat | j < 16 ensures !r[j] { ZeroBits(j); }
    } else {
      SpelledBits(bits, k - 1);
      var v, p := Spelled(bits, k - 1), Numeral(bits[k - 1]);
      assert Spelled(bits, k) == ShiftIn(v, p);
      hide Bit, Numeral, Spelled;
      var was, now := WordBits(v), Zeros(16 - k) + bits[..k];
      forall j: nat | j < 16 ensures r[j] == now[j] {
        BitOfShiftIn(v, p, j);
        if j < 15 { assert was[j + 1] == now[j]; }
      }
    }
  }

  lemma SpelledStep(bits: seq<bool>, k: nat)
    requires k < |bits| && k < 8
    ensures ByteRemainder(Spelled(bits, k + 1)) == Step(ByteRemainder(Spelled(bits, k)), Numeral(bits[k]))
  {
    hide ByteRemainder, Step, Numeral, ShiftIn, Limit;
    SpelledBelow(bits, k);
    LimitDoubles(k);
    ByteRemainderStep(Spelled(bits, k), Numeral(bits[k]));
  }

  lemma {:induction false} SpelledRemainder(bits: seq<bool>, k: nat)
    requires k <= |bits| && k <= 8
    ensures WordBits(ByteRemainder(Spelled(bits, k))) == Crc(bits[..k])
    decreases k
  {
    if k == 0 {
      assert ByteRemainder(0) == 0;
      SpelledBits(bits, 0);
    } else {
      hide ByteRemainder, Spelled, WordBits, Step, Numeral;
      SpelledRemainder(bits, k - 1);
      SpelledStep(bits, k - 1);
      StepIsFeed(ByteRemainder(Spelled(bits, k - 1)), bits[k - 1]);
      assert bits[..k] == bits[..k - 1] + [bits[k - 1]];
      FeedConcat(Zeros(16), bits[..k - 1], [bits[k - 1]]);
    }
  }

  lemma HighBitsOfByte(x: bv16, j: nat)
    requires x < 256 && j < 8
    ensures !Bit(x, j)
  {
  }

  lemma ByteIsCrc(x: bv16)
    requires x < 256
    ensures WordBits(ByteRemainder(x)) == Crc(WordBits(x)[8..])
  {
    hide Bit, ByteRemainder;
    var s := WordBits(x)[8..];
    SpelledBits(s, 8);
    SpelledRemainder(s, 8);
    assert s[..8] == s;
    forall j: nat | j < 8 ensures !WordBits(x)[j] { HighBitsOfByte(x, j); }
    assert WordBits(x) == Zeros(8) + s;
    WordBitsInjective(x, Spelled(s, 8));
  }

  lemma MaskXor(v: bv16, w: bv16, m: bv16)
    requires m & (m - 1) == 0
    ensures ((v ^ w) & m != 0) == ((v & m != 0) != (w & m != 0))
  {
    assert v & m == 0 || v & m == m;
    assert w & m == 0 || w & m == m;
    assert (v ^ w) & m == (v & m) ^ (w & m);
  }

  lemma XorMask(v: bv16, w: bv16, m: bv16)
    requires m & (m - 1) == 0
    ensures Has(XorWords(v, w), m) == (Has(v, m) != Has(w, m))
  {
    MaskXor(v, w, m);
  }

  lemma BitOfXor(v: bv16, w: bv16, j: nat)
    requires j < 16
    ensures Bit(XorWords(v, w), j) == (Bit(v, j) != Bit(w, j))
  {
    hide Has, Mask, XorWords;
    MaskFacts(j);
    XorMask(v, w, Mask(j));
  }

  lemma WordBitsXor(v: bv16, w: bv16)
    ensures WordBits(XorWords(v, w)) == Xor(WordBits(v), WordBits(w))
  {
    hide Bit, XorWords;
    forall j: nat | j < 16 ensures WordBits(XorWords(v, w))[j] == (WordBits(v)[j] != WordBits(w)[j]) {
      BitOfXor(v, w, j);
    }
  }

  lemma MaskDown(j: nat)
    requires j < 8
    ensures HighByte(Mask(j)) == Mask(j + 8) && LowByte(Mask(j)) == 0
  {
  }

  lemma ByteMasks(w: bv16, m: bv16)
    requires LowByte(m) == 0
    ensures Has(ShiftByte(w), m) == Has(w, HighByte(m)) && !Has(ShiftByte(w), HighByte(m))
    ensures Has(HighByte(w), HighByte(m)) == Has(w, m)
    ensures Has(LowByte(w), HighByte(m)) == Has(w, HighByte(m))
  {
  }

  lemma BitsByByte(w: bv16, k: nat)
    requires k < 8
    ensures Bit(ShiftByte(w), k) == Bit(w, k + 8) && !Bit(ShiftByte(w), k + 8)
    ensures Bit(HighByte(w), k + 8) == Bit(w, k) && Bit(LowByte(w), k + 8) == Bit(w, k + 8)
  {
    hide Has, Mask, ShiftByte, HighByte, LowByte;
    MaskDown(k);
    ByteMasks(w, Mask(k));
  }

  lemma ShiftedBits(w: bv16)
    ensures WordBits(ShiftByte(w)) == WordBits(w)[8..] + Zeros(8)
  {
    hide Bit, ShiftByte;
    var r := WordBits(ShiftByte(w));
    forall j: nat | j < 16 ensures r[j] == (WordBits(w)[8..] + Zeros(8))[j] {
      BitsByByte(w, if j < 8 then j else j - 8);
    }
  }

  // The table index used by the loop.
  function Index(w: bv16, b: bv16): bv16 { LowByte(XorWords(HighByte(w), b)) }

  lemma IndexBits(w: bv16, b: bv16)
    ensures WordBits(Index(w, b))[8..] == Xor(WordBits(w)[..8], WordBits(b)[8..])
  {
    hide Bit, HighByte, LowByte, XorWords;
    forall k: nat | k < 8 ensures Bit(Index(w, b), k + 8) == (Bit(w, k) != Bit(b, k + 8)) {
      BitsByByte(XorWords(HighByte(w), b), k);
      BitsByByte(w, k);
      BitOfXor(HighByte(w), b, k + 8);
    }
    var s := WordBits(Index(w, b))[8..];
    forall k: nat | k < 8 ensures s[k] == (WordBits(w)[k] != WordBits(b)[k + 8]) {
      assert s[k] == Bit(Index(w, b), k + 8);
    }
  }

  // One turn of the table loop advances the register by the eight bits of the byte.
  lemma LookupIsEightFeeds(w: bv16, b: bv8)
    ensures WordBits(XorWords(ByteRemainder(Index(w, b as bv16)), ShiftByte(w))) == FeedAll(WordBits(w), ByteBits(b))
  {
    var index := Index(w, b as bv16);
    IndexBits(w, b as bv16);
    IndexIsByte(w, b as bv16);
    ByteIsCrc(index);
    ShiftedBits(w);
    hide ByteRemainder, WordBits, XorWords, ShiftByte, Index;
    WordBitsXor(ByteRemainder(index), ShiftByte(w));
    FeedHigh(WordBits(w), ByteBits(b));
    XorCommutes(Crc(WordBits(index)[8..]), WordBits(w)[8..] + Zeros(8));
  }

  lemma IndexIsByte(w: bv16, b: bv16)
    ensures Index(w, b) < 256
  {
  }

  lemma XorCommutes(a: seq<bool>, b: seq<bool>)
    requires |a| == |b|
    ensures Xor(a, b) == Xor(b, a)
  {
  }

  // ---------------------------------------------------------------- the table

  const ROW_0: seq<bv16> := [
    0x0000, 0x1021, 0x2042, 0x3063, 0x4084, 0x50A5, 0x60C6, 0x70E7,
    0x8108, 0x9129, 0xA14A, 0xB16B, 0xC18C, 0xD1AD, 0xE1CE, 0xF1EF]
  const ROW_1: seq<bv16> := [
    0x1231, 0x0210, 0x3273, 0x2252, 0x52B5, 0x4294, 0x72F7, 0x62D6,
    0x9339, 0x8318, 0xB37B, 0xA35A, 0xD3BD, 0xC39C, 0xF3FF, 0xE3DE]
  const ROW_2: seq<bv16> := [
    0x2462, 0x3443, 0x0420, 0x1401, 0x64E6, 0x74C7, 0x44A4, 0x5485,
    0xA56A, 0xB54B, 0x8528, 0x9509, 0xE5EE, 0xF5CF, 0xC5AC, 0xD58D]
  const ROW_3: seq<bv16> := [
    0x3653, 0x2672, 0x1611, 0x0630, 0x76D7, 0x66F6, 0x5695, 0x46B4,
    0xB75B, 0xA77A, 0x9719, 0x8738, 0xF7DF, 0xE7FE, 0xD79D, 0xC7BC]
  const ROW_4: seq<bv16> := [
    0x48C4, 0x58E5, 0x6886, 0x78A7, 0x0840, 0x1861, 0x2802, 0x3823,
    0xC9CC, 0xD9ED, 0xE98E, 0xF9AF, 0x8948, 0x9969, 0xA90A, 0xB92B]
  const ROW_5: seq<bv16> := [
    0x5AF5, 0x4AD4, 0x7AB7, 0x6A96, 0x1A71, 0x0A50, 0x3A33, 0x2A12,
    0xDBFD, 0xCBDC, 0xFBBF, 0xEB9E, 0x9B79, 0x8B58, 0xBB3B, 0xAB1A]
  const ROW_6: seq<bv16> := [
    0x6CA6, 0x7C87, 0x4CE4, 0x5CC5, 0x2C22, 0x3C03, 0x0C60, 0x1C41,
    0xEDAE, 0xFD8F, 0xCDEC, 0xDDCD, 0xAD2A, 0xBD0B, 0x8D68, 0x9D49]
  const ROW_7: seq<bv16> := [
    0x7E97, 0x6EB6, 0x5ED5, 0x4EF4, 0x3E13, 0x2E32, 0x1E51, 0x0E70,
    0xFF9F, 0xEFBE, 0xDFDD, 0xCFFC, 0xBF1B, 0xAF3A, 0x9F59, 0x8F78]
  const ROW_8: seq<bv16> := [
    0x9188, 0x81A9, 0xB1CA, 0xA1EB, 0xD10C, 0xC12D, 0xF14E, 0xE16F,
    0x1080, 0x00A1, 0x30C2, 0x20E3, 0x5004, 0x4025, 0x7046, 0x6067]
  const ROW_9: seq<bv16> := [
    0x83B9, 0x9398, 0xA3FB, 0xB3DA, 0xC33D, 0xD31C, 0xE37F, 0xF35E,
    0x02B1, 0x1290, 0x22F3, 0x32D2, 0x4235, 0x5214, 0x6277, 0x7256]
  const ROW_A: seq<bv16> := [
    0xB5EA, 0xA5CB, 0x95A8, 0x8589, 0xF56E, 0xE54F, 0xD52C, 0xC50D,
    0x34E2, 0x24C3, 0x14A0, 0x0481, 0x7466, 0x6447, 0x5424, 0x4405]
  const ROW_B: seq<bv16> := [
    0xA7DB, 0xB7FA, 0x8799, 0x97B8, 0xE75F, 0xF77E, 0xC71D, 0xD73C,
    0x26D3, 0x36F2, 0x0691, 0x16B0, 0x6657, 0x7676, 0x4615, 0x5634]
  const ROW_C: seq<bv16> := [
    0xD94C, 0xC96D, 0xF90E, 0xE92F, 0x99C8, 0x89E9, 0xB98A, 0xA9AB,
    0x5844, 0x4865, 0x7806, 0x6827, 0x18C0, 0x08E1, 0x3882, 0x28A3]
  const ROW_D: seq<bv16> := [
    0xCB7D, 0xDB5C, 0xEB3F, 0xFB1E, 0x8BF9, 0x9BD8, 0xABBB, 0xBB9A,
    0x4A75, 0x5A54, 0x6A37, 0x7A16, 0x0AF1, 0x1AD0, 0x2AB3, 0x3A92]
  const ROW_E: seq<bv16> := [
    0xFD2E, 0xED0F, 0xDD6C, 0xCD4D, 0xBDAA, 0xAD8B, 0x9DE8, 0x8DC9,
    0x7C26, 0x6C07, 0x5C64, 0x4C45, 0x3CA2, 0x2C83, 0x1CE0, 0x0CC1]
  const ROW_F: seq<bv16> := [
    0xEF1F, 0xFF3E, 0xCF5D, 0xDF7C, 0xAF9B, 0xBFBA, 0x8FD9, 0x9FF8,
    0x6E17, 0x7E36, 0x4E55, 0x5E74, 0x2E93, 0x3EB2, 0x0ED1, 0x1EF0]

  function Quarter0(): seq<bv16> { ROW_0 + ROW_1 + ROW_2 + ROW_3 }
  function Quarter1(): seq<bv16> { ROW_4 + ROW_5 + ROW_6 + ROW_7 }
  function Quarter2(): seq<bv16> { ROW_8 + ROW_9 + ROW_A + ROW_B }
  function Quarter3(): seq<bv16> { ROW_C + ROW_D + ROW_E + ROW_F }

  const CRC16_TABLE: seq<bv16> := Quarter0() + Quarter1() + Quarter2() + Quarter3()

  function Remainder(i: nat): bv16 {
    if i < 256 then ByteRemainder(i as bv16) else 0
  }

  // `s` lists the remainders of the bytes base, base + 1, ...
  ghost predicate Lists(s: seq<bv16>, base: nat) {
    forall c: nat | c < |s| :: s[c] == Remainder(base + c)
  }

  lemma ListsConcat(s: seq<bv16>, t: seq<bv16>, base: nat)
    requires Lists(s, base) && Lists(t, base + |s|)
    ensures Lists(s + t, base)
  {
    hide Remainder;
    forall c: nat | |s| <= c < |s + t| ensures (s + t)[c] == Remainder(base + c) {
      assert (s + t)[c] == t[c - |s|] && base + c == (base + |s|) + (c - |s|);
    }
  }

  function RemainderOctet(b: nat): (s: seq<bv16>)
    ensures |s| == 8
  {
    [Remainder(b), Remainder(b + 1), Remainder(b + 2), Remainder(b + 3),
     Remainder(b + 4), Remainder(b + 5), Remainder(b + 6), Remainder(b + 7)]
  }

  function RemainderRow(b: nat): (s: seq<bv16>)
    ensures |s| == 16
  {
    RemainderOctet(b) + RemainderOctet(b + 8)
  }

  function RemainderQuarter(b: nat): (s: seq<bv16>)
    ensures |s| == 64
  {
    RemainderRow(b) + RemainderRow(b + 16) + RemainderRow(b + 32) + RemainderRow(b + 48)
  }

  lemma OctetLists(b: nat)
    ensures Lists(RemainderOctet(b), b)
  {
    hide Remainder;
    forall c: nat | c < 8 ensures RemainderOctet(b)[c] == Remainder(b + c) {
      assert c == 0 || c == 1 || c == 2 || c == 3 || c == 4 || c == 5 || c == 6 || c == 7;
    }
  }

  lemma RowLists(b: nat)
    ensures Lists(RemainderRow(b), b)
  {
    OctetLists(b);
    OctetLists(b + 8);
    hide Remainder, RemainderOctet;
    ListsConcat(RemainderOctet(b), RemainderOctet(b + 8), b);
  }

  lemma FourList(a: seq<bv16>, b: seq<bv16>, c: seq<bv16>, d: seq<bv16>, base: nat)
    requires Lists(a, base) && Lists(b, base + |a|) && Lists(c, base + |a + b|) && Lists(d, base + |a + b + c|)
    ensures Lists(a + b + c + d, base)
  {
    hide Remainder, Lists;
    ListsConcat(a, b, base);
    ListsConcat(a + b, c, base);
    ListsConcat(a + b + c, d, base);
  }

  lemma QuarterLists(b: nat)
    ensures Lists(RemainderQuarter(b), b)
  {
    RowLists(b);
    RowLists(b + 16);
    RowLists(b + 32);
    RowLists(b + 48);
    hide Remainder, RemainderRow, Lists;
    FourList(RemainderRow(b), RemainderRow(b + 16), RemainderRow(b + 32), RemainderRow(b + 48), b);
  }

  lemma Row0()
    ensures ROW_0 == RemainderRow(0)
  {
  }

  lemma Row1()
    ensures ROW_1 == RemainderRow(16)
  {
  }

  lemma Row2()
    ensures ROW_2 == RemainderRow(32)
  {
  }

  lemma Row3()
    ensures ROW_3 == RemainderRow(48)
  {
  }

  lemma Row4()
    ensures ROW_4 == RemainderRow(64)
  {
  }

  lemma Row5()
    ensures ROW_5 == RemainderRow(80)
  {
  }

  lemma Row6()
    ensures ROW_6 == RemainderRow(96)
  {
  }

  lemma Row7()
    ensures ROW_7 == RemainderRow(112)
  {
  }

  lemma Row8()
    ensures ROW_8 == RemainderRow(128)
  {
  }

  lemma Row9()
    ensures ROW_9 == RemainderRow(144)
  {
  }

  lemma RowA()
    ensures ROW_A == RemainderRow(160)
  {
  }

  lemma RowB()
    ensures ROW_B == RemainderRow(176)
  {
  }

  lemma RowC()
    ensures ROW_C == RemainderRow(192)
  {
  }

  lemma RowD()
    ensures ROW_D == RemainderRow(208)
  {
  }

  lemma RowE()
    ensures ROW_E == RemainderRow(224)
  {
  }

  lemma RowF()
    ensures ROW_F == RemainderRow(240)
  {
  }

  lemma Quarter0Matches(b: nat)
    requires b == 0
    ensures Quarter0() == RemainderQuarter(b)
  {
    Row0(); Row1(); Row2(); Row3();
    hide Remainder, RemainderRow;
  }

  lemma Quarter1Matches(b: nat)
    requires b == 64
    ensures Quarter1() == RemainderQuarter(b)
  {
    Row4(); Row5(); Row6(); Row7();
    hide Remainder, RemainderRow;
  }

  lemma Quarter2Matches(b: nat)
    requires b == 128
    ensures Quarter2() == RemainderQuarter(b)
  {
    Row8(); Row9(); RowA(); RowB();
    hide Remainder, RemainderRow;
  }

  lemma Quarter3Matches(b: nat)
    requires b == 192
    ensures Quarter3() == RemainderQuarter(b)
  {
    RowC(); RowD(); RowE(); RowF();
    hide Remainder, RemainderRow;
  }

  lemma FourQuarters(b: nat)
    ensures Lists(RemainderQuarter(b) + RemainderQuarter(b + 64) + RemainderQuarter(b + 128)
                  + RemainderQuarter(b + 192), b)
  {
    QuarterLists(b); QuarterLists(b + 64); QuarterLists(b + 128); QuarterLists(b + 192);
    hide Remainder, RemainderQuarter, Lists;
    FourList(RemainderQuarter(b), RemainderQuarter(b + 64), RemainderQuarter(b + 128), RemainderQuarter(b + 192), b);
  }

  lemma TableLists(base: nat)
    requires base == 0
    ensures |CRC16_TABLE| == 256 && Lists(CRC16_TABLE, base)
  {
    hide Quarter0, Quarter1, Quarter2, Quarter3, Remainder, RemainderQuarter, Lists;
    Quarter0Matches(base);
    Quarter1Matches(base + 64);
    Quarter2Matches(base + 128);
    Quarter3Matches(base + 192);
    FourQuarters(base);
  }

  lemma IndexRoundTrip(x: bv16)
    requires x < 256
    ensures (x as int) < 256 && (x as int) as bv16 == x
  {
  }

  lemma TableAt(x: bv16)
    requires x < 256
    ensures |CRC16_TABLE| == 256 && (x as int) < 256
    ensures CRC16_TABLE[x as int] == ByteRemainder(x)
  {
    TableLists(0);
    IndexRoundTrip(x);
    hide ByteRemainder;
    assert CRC16_TABLE[x as int] == Remainder(0 + (x as int));
  }

  // ---------------------------------------------------------------- the checksum of a buffer

  // The bit-serial checksum of a message, most significant bit first, starting from zero.
  function Checksum(bytes: seq<bv8>): bv16 {
    StepAll(0, MessageBits(bytes))
  }

  lemma ZeroWord()
    ensures WordBits(0) == Zeros(16)
  {
    forall j: nat | j < 16 ensures !WordBits(0)[j] { ZeroBits(j); }
  }

  lemma ChecksumIsCrc(bytes: seq<bv8>)
    ensures WordBits(Checksum(bytes)) == Crc(MessageBits(bytes))
  {
    hide StepAll, WordBits, MessageBits;
    ZeroWord();
    StepAllIsFeedAll(0, MessageBits(bytes));
  }

  lemma ChecksumStep(bytes: seq<bv8>, b: bv8)
    ensures Checksum(bytes + [b]) ==
      XorWords(ByteRemainder(Index(Checksum(bytes), b as bv16)), ShiftByte(Checksum(bytes)))
  {
    hide ByteRemainder, Checksum, XorWords, Index, ShiftByte, WordBits, ByteBits;
    var w, next := Checksum(bytes), Checksum(bytes + [b]);
    assert (bytes + [b])[..|bytes|] == bytes;
    ChecksumIsCrc(bytes);
    ChecksumIsCrc(bytes + [b]);
    FeedConcat(Zeros(16), MessageBits(bytes), ByteBits(b));
    LookupIsEightFeeds(w, b);
    WordBitsInjective(next, XorWords(ByteRemainder(Index(w, b as bv16)), ShiftByte(w)));
  }

  // One turn of the loop: look up the byte, shift the register up by eight.
  lemma LookupStep(bytes: seq<bv8>, b: bv8)
    ensures Index(Checksum(bytes), b as bv16) as int < |CRC16_TABLE|
    ensures XorWords(CRC16_TABLE[Index(Checksum(bytes), b as bv16) as int], ShiftByte(Checksum(bytes)))
         == Checksum(bytes + [b])
  {
    hide *;
    IndexIsByte(Checksum(bytes), b as bv16);
    TableAt(Index(Checksum(bytes), b as bv16));
    ChecksumStep(bytes, b);
  }

  method TableCrc(buffer: array<bv8>, len: int) returns (crc: bv16)
    requires len <= buffer.Length
    ensures crc == Checksum(buffer[..if len < 0 then 0 else len])
  {
    crc := 0;
    var left, p := len, 0;
    EmptyChecksum();
    assert buffer[..0] == [];
    hide *;
    while left > 0
      invariant 0 <= p && p + left == len && (p > 0 ==> left >= 0)
      invariant crc == Checksum(buffer[..p])
      decreases left
    {
      left := left - 1;
      LookupStep(buffer[..p], buffer[p]);
      assert buffer[..p + 1] == buffer[..p] + [buffer[p]];
      crc := XorWords(CRC16_TABLE[Index(crc, buffer[p] as bv16) as int], ShiftByte(crc));
      p := p + 1;
    }
  }

  lemma EmptyChecksum()
    ensures Checksum([]) == 0
  {
  }

  // ---------------------------------------------------------------- what the checksum detects

  // The checksum is the remainder of message * x^16 by x^16 + x^12 + x^5 + 1: there is a
  // quotient with that remainder, and no other remainder has one.
  lemma ChecksumIsRemainder(bytes: seq<bv8>)
    ensures exists q: seq<bool> :: IsDivision(MessageBits(bytes), q, WordBits(Checksum(bytes)))
    ensures forall q: seq<bool>, w: bv16 | IsDivision(MessageBits(bytes), q, WordBits(w)) :: w == Checksum(bytes)
  {
    hide WordBits, Checksum, MessageBits, TimesG;
    var m := MessageBits(bytes);
    ChecksumIsCrc(bytes);
    Division(m);
    assert IsDivision(m, Quotient(m), Crc(m));
    forall q: seq<bool>, w: bv16 | IsDivision(m, q, WordBits(w)) ensures w == Checksum(bytes) {
      DivisionUnique(m, q, WordBits(w));
      WordBitsInjective(w, Checksum(bytes));
    }
  }

  function XorBytes(a: seq<bv8>, b: seq<bv8>): (c: seq<bv8>)
    requires |a| == |b|
    ensures |c| == |a|
  {
    seq(|a|, i requires 0 <= i < |a| => a[i] ^ b[i])
  }

  lemma XorByteBits(a: bv8, b: bv8)
    ensures ByteBits(a ^ b) == Xor(ByteBits(a), ByteBits(b))
  {
    assert (a ^ b) as bv16 == XorWords(a as bv16, b as bv16);
    hide XorWords, WordBits;
    WordBitsXor(a as bv16, b as bv16);
  }

  lemma {:induction false} XorMessageBits(a: seq<bv8>, b: seq<bv8>)
    requires |a| == |b|
    ensures MessageBits(XorBytes(a, b)) == Xor(MessageBits(a), MessageBits(b))
    decreases |a|
  {
    if a != [] {
      hide ByteBits;
      var n := |a| - 1;
      assert XorBytes(a, b)[..n] == XorBytes(a[..n], b[..n]);
      XorMessageBits(a[..n], b[..n]);
      XorByteBits(a[n], b[n]);
    }
  }

  // The checksum is linear for exclusive or.
  lemma ChecksumLinear(a: seq<bv8>, b: seq<bv8>)
    requires |a| == |b|
    ensures Checksum(XorBytes(a, b)) == Checksum(a) ^ Checksum(b)
  {
    assert Checksum(a) ^ Checksum(b) == XorWords(Checksum(a), Checksum(b));
    hide WordBits, Checksum, XorWords;
    XorMessageBits(a, b);
    ChecksumIsCrc(a);
    ChecksumIsCrc(b);
    ChecksumIsCrc(XorBytes(a, b));
    CrcLinear(MessageBits(a), MessageBits(b));
    WordBitsXor(Checksum(a), Checksum(b));
    WordBitsInjective(Checksum(XorBytes(a, b)), XorWords(Checksum(a), Checksum(b)));
  }

  // Two messages of one length that differ only inside 16 consecutive bits have different checksums.
  lemma ChecksumDetectsBursts(a: seq<bv8>, b: seq<bv8>, lo: nat)
    requires |a| == |b|
    requires DifferInBurst(MessageBits(a), MessageBits(b), lo, 16)
    ensures Checksum(a) != Checksum(b)
  {
    hide WordBits, Checksum;
    ChecksumIsCrc(a);
    ChecksumIsCrc(b);
    BurstDetected(MessageBits(a), MessageBits(b), lo);
  }

  // Two messages of one length that differ in an odd number of bits have different checksums.
  lemma ChecksumDetectsOddErrors(a: seq<bv8>, b: seq<bv8>)
    requires |a| == |b| && Odd(Xor(MessageBits(a), MessageBits(b)))
    ensures Checksum(a) != Checksum(b)
  {
    hide WordBits, Checksum;
    ChecksumIsCrc(a);
    ChecksumIsCrc(b);
    OddErrorsDetected(MessageBits(a), MessageBits(b));
  }

  // Two bytes read as one word, high byte first.
  function Word(hi: bv8, lo: bv8): bv16 { ((hi as bv16) << 8) | (lo as bv16) }

  lemma WordParts(hi: bv8, lo: bv8)
    ensures HighByte(Word(hi, lo)) == hi as bv16 && LowByte(Word(hi, lo)) == lo as bv16
  {
  }

  lemma WordHalves(w: bv16, h: bv16, l: bv16)
    requires HighByte(w) == h && LowByte(w) == l
    ensures WordBits(w) == WordBits(h)[8..] + WordBits(l)[8..]
  {
    hide Bit, HighByte, LowByte;
    var r, halves := WordBits(w), WordBits(h)[8..] + WordBits(l)[8..];
    forall j: nat | j < 16 ensures r[j] == halves[j] {
      BitsByByte(w, if j < 8 then j else j - 8);
    }
  }

  lemma WordOfTwoBytes(hi: bv8, lo: bv8)
    ensures MessageBits([hi, lo]) == WordBits(Word(hi, lo))
  {
    WordParts(hi, lo);
    hide Word, HighByte, LowByte, WordBits;
    WordHalves(Word(hi, lo), hi as bv16, lo as bv16);
    assert [hi, lo][..1] == [hi] && [hi][..0] == [];
  }

  // A message followed by two bytes has checksum zero exactly when they are its checksum.
  lemma AppendedChecksum(bytes: seq<bv8>, hi: bv8, lo: bv8)
    ensures Checksum(bytes + [hi, lo]) == 0 <==> Checksum(bytes) == Word(hi, lo)
  {
    hide WordBits, Checksum, MessageBits, Word;
    var w := Word(hi, lo);
    ChecksumIsCrc(bytes);
    ChecksumIsCrc(bytes + [hi, lo]);
    MessageBitsConcat(bytes, [hi, lo]);
    WordOfTwoBytes(hi, lo);
    ResidueExactly(MessageBits(bytes), WordBits(w));
    ZeroWord();
    if Checksum(bytes + [hi, lo]) == 0 {
      WordBitsInjective(Checksum(bytes), w);
    }
    if Checksum(bytes) == w {
      WordBitsInjective(Checksum(bytes + [hi, lo]), 0);
    }
  }
}
