/**
 The framing of driver-avalon-miner.c: every 40-byte package carries 32 data bytes and their CRC,
 high byte first.  `InitPkg` builds a package, `CheckPkg` makes the checks at the head of decode_pkg.
 */
module AvalonPacket {
  import opened Crc16
  import opened CrcDistance
  import opened CrcSpec

  const AVAM_H1: bv8 := 0x43
  const AVAM_H2: bv8 := 0x4E
  const AVAM_P_DATA_LEN := 32

  datatype Verdict = BadHead | BadCrc | Dispatch(pkgType: bv8)

  class AvalonInfo {
    var crcerrCnt: nat
  }

  class AvalonPkg {
    var head0: bv8
    var head1: bv8
    var pkgType: bv8
    var opt: bv8
    var idx: bv8
    var cnt: bv8
    const data: array<bv8>
    var crc0: bv8
    var crc1: bv8

    constructor ()
      ensures Valid() && fresh(data)
    {
      data := new bv8[AVAM_P_DATA_LEN];
    }

    ghost predicate Valid() { data.Length == AVAM_P_DATA_LEN }

    // The 34 bytes covered by the checksum: the data, then the checksum itself.
    ghost function Codeword(): (c: seq<bv8>)
      reads this, data
      requires Valid()
      ensures |c| == 34
    {
      data[..] + [crc0, crc1]
    }

    method InitPkg(pkgType: bv8, idx: bv8, cnt: bv8)
      requires Valid()
      modifies this
      ensures head0 == 0x43 && head1 == 0x4E
      ensures this.pkgType == pkgType && opt == 0 && this.idx == idx && this.cnt == cnt
      ensures data[..] == old(data[..])
      ensures IsCodeword(Codeword())
    {
      head0 := AVAM_H1;
      head1 := AVAM_H2;
      this.pkgType := pkgType;
      opt := 0;
      this.idx := idx;
      this.cnt := cnt;
      var crc := TableCrc(data, AVAM_P_DATA_LEN);
      assert data[..AVAM_P_DATA_LEN] == data[..];
      crc0 := ((crc & 0xFF00) >> 8) as bv8;
      crc1 := (crc & 0x00FF) as bv8;
      SplitAndJoin(crc, crc0, crc1);
      hide *;
      AppendedChecksum(data[..], crc0, crc1);
    }

    // A damaged head is only noticed when both of its bytes are wrong.
    method CheckPkg(info: AvalonInfo) returns (v: Verdict)
      requires Valid()
      modifies info
      ensures v.BadHead? <==> head0 != 0x43 && head1 != 0x4E
      ensures info.crcerrCnt == old(info.crcerrCnt) + if v.BadHead? then 1 else 0
      ensures !v.BadHead? ==> (v.BadCrc? <==> !IsCodeword(Codeword()))
      ensures v.Dispatch? ==> v.pkgType == pkgType
    {
      if head0 != AVAM_H1 && head1 != AVAM_H2 {
        info.crcerrCnt := info.crcerrCnt + 1;
        return BadHead;
      }
      var expected := TableCrc(data, AVAM_P_DATA_LEN);
      assert data[..AVAM_P_DATA_LEN] == data[..];
      var actual := Word(crc0, crc1);
      AppendedChecksum(data[..], crc0, crc1);
      if expected != actual {
        return BadCrc;
      }
      return Dispatch(pkgType);
    }
  }

  lemma SplitAndJoin(crc: bv16, hi: bv8, lo: bv8)
    requires hi == ((crc & 0xFF00) >> 8) as bv8 && lo == (crc & 0x00FF) as bv8
    ensures Word(hi, lo) == crc
  {
  }

  // The checksum of data and stored checksum together is zero.
  predicate IsCodeword(bytes: seq<bv8>) { Checksum(bytes) == 0 }

  // A burst of at most 16 bits anywhere in the data or the checksum of a good package is caught.
  lemma BurstBreaksCodeword(sent: seq<bv8>, received: seq<bv8>, lo: nat)
    requires |sent| == |received| && IsCodeword(sent)
    requires DifferInBurst(MessageBits(sent), MessageBits(received), lo, 16)
    ensures !IsCodeword(received)
  {
    hide Checksum;
    ChecksumDetectsBursts(sent, received, lo);
  }

  // So is any odd number of flipped bits.
  lemma OddErrorBreaksCodeword(sent: seq<bv8>, received: seq<bv8>)
    requires |sent| == |received| && IsCodeword(sent)
    requires Odd(Xor(MessageBits(sent), MessageBits(received)))
    ensures !IsCodeword(received)
  {
    hide Checksum;
    ChecksumDetectsOddErrors(sent, received);
  }

  // So are any one, two or three flipped bits in data and checksum.
  lemma ThreeErrorsBreakCodeword(sent: seq<bv8>, received: seq<bv8>)
    requires |sent| == AVAM_P_DATA_LEN + 2 && IsCodeword(sent) && FewErrors(sent, received)
    ensures !IsCodeword(received)
  {
    hide Checksum, Weight;
    ThreeErrorsDetected(sent, received);
  }

  // But not every four: good packages may be as near to each other as that.
  lemma FourErrorsMayPass(sent: seq<bv8>) returns (received: seq<bv8>)
    requires |sent| == AVAM_P_DATA_LEN + 2 && IsCodeword(sent)
    ensures |received| == |sent| && Weight(Xor(MessageBits(sent), MessageBits(received))) == 4
    ensures IsCodeword(received)
  {
    hide Checksum, Weight;
    received := FourErrorsUnnoticed(sent);
  }

  // What goes undetected is exactly a codeword added to the package.
  lemma UndetectedErrors(sent: seq<bv8>, error: seq<bv8>)
    requires |sent| == |error| && IsCodeword(sent)
    ensures IsCodeword(XorBytes(sent, error)) <==> IsCodeword(error)
  {
    ChecksumLinear(sent, error);
    var e := Checksum(error);
    hide Checksum;
    assert 0 ^ e == e;
  }
}
