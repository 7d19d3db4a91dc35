/**
 The command buffer of bf16-bitfury16.c: commands are laid out one behind the other for a single SPI
 transfer, and the answers are cut out of the received bytes in the same order.
 */
module CmdBuffer {
  import opened BfList
  import Shift = ShiftBits

  const CMD_BUFFER_LEN := 4096
  const RX_LEN := 64      // the rx array of a bf_command_t
  const BUFF_LEN := 192   // the stack buffers of cmd_buffer_push and cmd_buffer_pop

  type Byte = n: nat | n < 256
  type Int8 = n: int | -128 <= n < 128

  // Command codes are bit sets, save the last.
  const TASK_SWITCH: bv8 := 0x02
  const READ_NONCE: bv8 := 0x04
  const CREATE_CHANNEL: bv8 := 0x21

  datatype Status = Empty | TxReady | Executed

  // bf_chip_address_t
  datatype Address = Address(board: Int8, bcm250: Int8, chip: Int8)

  // bf_cmd_t, what is remembered of a command until its answer is popped; `work` stands for the work item.
  datatype Command = Command(chip: Address, src: Address, work: nat, id: nat, depth: Byte, code: bv8,
                             dataLength: Byte, checksum: Byte)

  // ---------------------------------------------------------------- the bytes of a command

  predicate IsNonceRead(code: bv8) { code & READ_NONCE != 0 }

  function ExtraBytes(depth: nat): nat { depth * 3 / 8 + 1 }

  // What comes back behind the bytes of the command itself.
  function ReplyLength(code: bv8, depth: nat): nat { (if IsNonceRead(code) then 49 + 2 else 2) + ExtraBytes(depth) }

  predicate WellAddressed(chip: Int8) { chip <= 10 || chip == 0x0f }

  // One more byte in a uint8_t sum.
  function Plus(sum: Byte, b: bv8): Byte { (sum + b as int) % 256 }

  function Sum(s: seq<bv8>): Byte { if s == [] then 0 else Plus(Sum(s[..|s| - 1]), s[|s| - 1]) }

  function Zeros(n: nat): (s: seq<bv8>)
    ensures |s| == n && forall i | 0 <= i < n :: s[i] == 0
  {
    seq(n, _ => 0)
  }

  // The chip id in the high half of a byte.
  function ChipByte(chip: Int8): bv8 { (chip * 16 % 256) as bv8 }

  // The command as spi_command_init builds it.
  function Frame(chip: Int8, code: bv8, payload: seq<bv8>, dataLength: Byte): seq<bv8>
    requires dataLength == 0 || |payload| > dataLength
  {
    [0x01, ChipByte(chip), code, dataLength as bv8] + if dataLength == 0 then [0x00] else payload[..dataLength + 1]
  }

  datatype Init = Rejected | Framed(tx: seq<bv8>, checksum: Byte)

  // spi_command_init
  method SpiCommandInit(chip: Int8, code: bv8, dataLength: Byte, tx: array?<bv8>) returns (r: Init)
    requires tx != null && 0 < dataLength <= 79 ==> tx.Length > dataLength
    ensures r.Rejected? <==> (chip > 10 && chip != 15) || dataLength > 79 || (dataLength > 0 && tx == null)
    ensures r.Framed? ==> tx != null || dataLength == 0
    ensures r.Framed? ==> r.tx == Frame(chip, code, if tx == null then [] else tx[..], dataLength)
    ensures r.Framed? ==> r.checksum == Sum(r.tx[2..])
  {
    var frame: seq<bv8> := [0x01];
    if chip > 10 && chip != 0x0f {
      return Rejected;
    }
    frame := frame + [ChipByte(chip)];
    frame := frame + [code];
    if dataLength > 79 {
      return Rejected;
    }
    frame := frame + [dataLength as bv8];
    if dataLength == 0 {
      frame := frame + [0x00];
    } else if tx != null {
      frame := frame + tx[..dataLength + 1];
    } else {
      return Rejected;
    }
    var checksum := CheckSum(frame);
    return Framed(frame, checksum);
  }

  // The last loop of spi_command_init.
  method CheckSum(frame: seq<bv8>) returns (checksum: Byte)
    requires |frame| >= 2
    ensures checksum == Sum(frame[2..])
  {
    checksum := 0;
    for i := 2 to |frame|
      invariant checksum == Sum(frame[2..i])
    {
      assert frame[2..i + 1][..i - 2] == frame[2..i];
      checksum := Plus(checksum, frame[i]);
    }
    assert frame[2..|frame|] == frame[2..];
  }

  // ---------------------------------------------------------------- the layout

  // A command and the bytes it occupies in the transfer.
  datatype Slot = Slot(cmd: Command, bytes: seq<bv8>)

  function Layout(log: seq<Slot>): seq<bv8> {
    if log == [] then [] else Layout(log[..|log| - 1]) + log[|log| - 1].bytes
  }

  function Commands(log: seq<Slot>): (r: seq<Command>)
    ensures |r| == |log|
    ensures forall i | 0 <= i < |log| :: r[i] == log[i].cmd
  {
    seq(|log|, i requires 0 <= i < |log| => log[i].cmd)
  }

  // Where the i-th slot begins.
  function Offset(log: seq<Slot>, i: nat): nat
    requires i <= |log|
  {
    |Layout(log[..i])|
  }

  lemma LayoutSnoc(log: seq<Slot>, slot: Slot)
    ensures Layout(log + [slot]) == Layout(log) + slot.bytes
  {
    assert (log + [slot])[..|log|] == log;
  }

  // The slots follow one another without gap, each holding its own bytes.
  lemma {:induction false} SlotsTile(log: seq<Slot>, i: nat)
    requires i < |log|
    ensures Offset(log, i) + |log[i].bytes| == Offset(log, i + 1) <= |Layout(log)|
    ensures Layout(log)[Offset(log, i)..Offset(log, i + 1)] == log[i].bytes
    decreases |log|
  {
    var n := |log| - 1;
    var front := log[..n];
    assert log[..i + 1][..i] == log[..i];
    if i < n {
      SlotsTile(front, i);
      assert front[..i] == log[..i] && front[..i + 1] == log[..i + 1];
    } else {
      assert log[..i] == front && log[..i + 1] == log;
    }
  }

  // What spi_command_init refuses.
  predicate Unsendable(chip: Address, code: bv8, dataLength: Byte, hasData: bool) {
    code != CREATE_CHANNEL && (!WellAddressed(chip.chip) || dataLength > 79 || (dataLength > 0 && !hasData))
  }

  // The slot that a push appends: the command and room for its answer, or a channel path as it is.
  function SlotOf(chip: Address, src: Address, work: nat, id: nat, depth: Byte, code: bv8, dataLength: Byte,
                  payload: seq<bv8>): Slot
    requires code == CREATE_CHANNEL ==> |payload| >= dataLength
    requires code != CREATE_CHANNEL && 0 < dataLength ==> |payload| > dataLength
    requires code != CREATE_CHANNEL ==> dataLength <= 79
  {
    if code == CREATE_CHANNEL then
      Slot(Command(chip, src, work, id, 0, code, dataLength, 0), payload[..dataLength])
    else
      var frame := Frame(chip.chip, code, payload, dataLength);
      var bytes := frame + Zeros(ReplyLength(code, depth));
      Slot(Command(chip, src, work, id, depth, code, |bytes|, Sum(frame[2..])), bytes)
  }

  predicate SlotOk(slot: Slot) {
    var c := slot.cmd;
    c.dataLength == |slot.bytes| && (c.code != CREATE_CHANNEL ==> ReplyLength(c.code, c.depth) <= c.dataLength)
  }

  // The bytes of a command fit the stack buffer they are copied from.
  predicate FitsBuff(code: bv8, dataLength: nat, depth: nat) {
    code == CREATE_CHANNEL || 5 + dataLength + ReplyLength(code, depth) <= BUFF_LEN
  }

  // The stack buffer is large enough for every command exactly up to a depth of 151.
  lemma FitsBuffExactly(depth: nat)
    ensures (forall code: bv8, dataLength: nat | dataLength <= 79 :: FitsBuff(code, dataLength, depth)) <==>
      depth <= 151
  {
    if depth > 151 {
      assert READ_NONCE & READ_NONCE != 0 && READ_NONCE != CREATE_CHANNEL;
      assert !FitsBuff(READ_NONCE, 79, depth);
    }
  }

  // The transfer holds the slots of `log`, one behind the other from its start, and the rest is free.
  ghost predicate LaidOut(log: seq<Slot>, tx: seq<bv8>, txOffset: int, freeBytes: int) {
    && |tx| == CMD_BUFFER_LEN && txOffset + freeBytes == CMD_BUFFER_LEN && 0 <= freeBytes
    && txOffset == |Layout(log)| && tx[..txOffset] == Layout(log)
    && forall i | 0 <= i < |log| :: SlotOk(log[i])
  }

  // `waiting` are the last commands of `log`, and the first of them is answered at rxOffset.
  ghost predicate Queued(log: seq<Slot>, waiting: seq<Command>, rxOffset: int) {
    && |waiting| <= |log| && waiting == Commands(log)[|log| - |waiting|..]
    && rxOffset == Offset(log, |log| - |waiting|)
  }

  lemma LaidOutSnoc(log: seq<Slot>, tx: seq<bv8>, txOffset: int, freeBytes: int, slot: Slot, tx': seq<bv8>)
    requires LaidOut(log, tx, txOffset, freeBytes) && SlotOk(slot) && |slot.bytes| <= freeBytes
    requires |tx'| == |tx| && tx'[..txOffset + |slot.bytes|] == tx[..txOffset] + slot.bytes
    ensures LaidOut(log + [slot], tx', txOffset + |slot.bytes|, freeBytes - |slot.bytes|)
  {
    LayoutSnoc(log, slot);
    hide Layout, SlotOk;
  }

  lemma QueuedSnoc(log: seq<Slot>, waiting: seq<Command>, rxOffset: int, slot: Slot)
    requires Queued(log, waiting, rxOffset)
    ensures Queued(log + [slot], waiting + [slot.cmd], rxOffset)
  {
    hide Layout;
    assert Commands(log + [slot]) == Commands(log) + [slot.cmd];
    assert (log + [slot])[..|log| - |waiting|] == log[..|log| - |waiting|];
  }

  lemma QueuedPop(log: seq<Slot>, waiting: seq<Command>, rxOffset: int)
    requires Queued(log, waiting, rxOffset) && waiting != []
    ensures var i := |log| - |waiting|;
      && waiting[0] == log[i].cmd && rxOffset == Offset(log, i)
      && Queued(log, waiting[1..], rxOffset + |log[i].bytes|) && rxOffset + |log[i].bytes| <= |Layout(log)|
  {
    SlotsTile(log, |log| - |waiting|);
    hide Layout;
  }

  lemma PlusTotal(total: nat, b: bv8)
    ensures Plus(total % 256, b) == (total + b as int) % 256
    ensures total < 256 ==> Plus(total, 0) == total
  {
  }

  lemma {:induction false} SumZeros(s: seq<bv8>, n: nat)
    ensures Sum(s + Zeros(n)) == Sum(s)
    decreases n
  {
    hide Plus;
    if n == 0 {
      assert s + Zeros(0) == s;
    } else {
      SumZeros(s, n - 1);
      assert (s + Zeros(n))[..|s| + n - 1] == s + Zeros(n - 1);
      PlusTotal(Sum(s), 0);
    }
  }

  // Byte for byte what a command sends: the start byte, the chip id in the high half of the next, the code, the
  // length, and the payload, one byte longer than its length says. Padding does not disturb the checksum: it is
  // the sum of the whole slot after its first two bytes.
  lemma SlotBytes(chip: Address, src: Address, work: nat, id: nat, depth: Byte, code: bv8, dataLength: Byte,
                  payload: seq<bv8>)
    requires code != 0x21 && dataLength <= 79 && (0 < dataLength ==> |payload| > dataLength)
    ensures var slot := SlotOf(chip, src, work, id, depth, code, dataLength, payload);
      && slot.cmd == Command(chip, src, work, id, depth, code, |slot.bytes|, Sum(slot.bytes[2..]))
      && |slot.bytes| == 5 + dataLength + (if code & 0x04 != 0 then 49 + 2 else 2) + depth * 3 / 8 + 1
      && slot.bytes[0] == 0x01 && slot.bytes[2] == code && slot.bytes[3] == dataLength as bv8
      && slot.bytes[1] == (chip.chip % 16 * 16) as bv8
      && slot.bytes[4..5 + dataLength] == (if dataLength == 0 then [0] else payload[..dataLength + 1])
      && slot.bytes[5 + dataLength..] == Zeros(|slot.bytes| - 5 - dataLength)
  {
    SlotLength(code, depth);
    ChipInHighHalf(chip.chip);
    hide Sum, ChipByte, ReplyLength, Frame;
    var frame, n := Frame(chip.chip, code, payload, dataLength), ReplyLength(code, depth);
    FrameBytes(chip.chip, code, payload, dataLength);
    SumZeros(frame[2..], n);
    assert (frame + Zeros(n))[2..] == frame[2..] + Zeros(n);
    assert (frame + Zeros(n))[4..5 + dataLength] == frame[4..];
  }

  lemma FrameBytes(chip: Int8, code: bv8, payload: seq<bv8>, dataLength: Byte)
    requires 0 < dataLength ==> |payload| > dataLength
    ensures var f := Frame(chip, code, payload, dataLength);
      && |f| == 5 + dataLength && f[0] == 0x01 && f[1] == ChipByte(chip) && f[2] == code
      && f[3] == dataLength as bv8 && f[4..] == if dataLength == 0 then [0] else payload[..dataLength + 1]
  {
    hide ChipByte;
  }

  lemma SlotLength(code: bv8, depth: nat)
    ensures ReplyLength(code, depth) == (if code & 0x04 != 0 then 49 + 2 else 2) + depth * 3 / 8 + 1
  {
  }

  lemma ChipInHighHalf(chip: Int8)
    ensures ChipByte(chip) == (chip % 16 * 16) as bv8
  {
    NibbleHigh(chip);
  }

  lemma NibbleHigh(chip: int)
    ensures chip * 16 % 256 == chip % 16 * 16
  {
  }

  // A channel path goes out as it is, and its answer is as long.
  lemma ChannelBytes(chip: Address, src: Address, work: nat, id: nat, depth: Byte, dataLength: Byte, payload: seq<bv8>)
    requires |payload| >= dataLength
    ensures SlotOf(chip, src, work, id, depth, 0x21, dataLength, payload) ==
      Slot(Command(chip, src, work, id, 0, 0x21, dataLength, 0), payload[..dataLength])
  {
  }

  lemma ChannelIsNoNonceRead()
    ensures !IsNonceRead(CREATE_CHANNEL)
  {
  }

  datatype Made = Invalid | Made(slot: Slot)

  // The part of cmd_buffer_push that does not depend on the buffer.
  method MakeSlot(depth: Byte, chip: Address, src: Address, work: nat, id: nat, code: bv8, dataLength: Byte,
                  data: array?<bv8>)
      returns (r: Made)
    requires code == CREATE_CHANNEL ==> data != null && data.Length >= dataLength
    requires code != CREATE_CHANNEL && data != null && 0 < dataLength <= 79 ==> data.Length > dataLength
    ensures r.Invalid? <==> Unsendable(chip, code, dataLength, data != null)
    ensures r.Made? ==> SlotOk(r.slot)
    ensures r.Made? ==>
      r.slot == SlotOf(chip, src, work, id, depth, code, dataLength, if data == null then [] else data[..])
  {
    ChannelIsNoNonceRead();
    hide IsNonceRead, Sum, ChipByte;
    var checksum: Byte, frame: seq<bv8> := 0, [];
    if code != CREATE_CHANNEL {
      var init := SpiCommandInit(chip.chip, code, dataLength, data);
      if init.Rejected? {
        return Invalid;
      }
      frame, checksum := init.tx, init.checksum;
    }
    var length: nat;
    if IsNonceRead(code) {
      length := |frame| + 49 + 2 + ExtraBytes(depth);
    } else if code == CREATE_CHANNEL {
      length := dataLength;
    } else {
      length := |frame| + 2 + ExtraBytes(depth);
    }
    if code != CREATE_CHANNEL {
      var bytes := frame + Zeros(length - |frame|);
      return Made(Slot(Command(chip, src, work, id, depth, code, length, checksum), bytes));
    }
    return Made(Slot(Command(chip, src, work, id, 0, code, length, 0), data[..length]));
  }

  // ---------------------------------------------------------------- what a command is answered

  // What analyze_rx_data finds out about an answer.
  datatype Verdict = Verdict(status: bv8, expected: Byte, checksumError: bool, nonceChecksum: Byte, nonceError: bool)

  // The chip may count one more than was sent; the sum is formed in an int, so 255 + 1 matches nothing.
  predicate Agrees(expected: Byte, received: bv8) {
    expected == received as int || expected == received as int + 1
  }

  // On a nonce read both sides of the first comparison are the received checksum, so it never fails.
  function VerdictOf(cmd: Command, reply: seq<bv8>): Verdict
    requires |reply| == RX_LEN
  {
    if IsNonceRead(cmd.code) then
      var nonceChecksum := Plus(Sum(reply[2..50]), reply[1]);
      Verdict(reply[0], reply[1] as int, false, nonceChecksum, !Agrees(nonceChecksum, reply[50]))
    else
      Verdict(reply[0], cmd.checksum, !Agrees(cmd.checksum, reply[1]), 0, false)
  }

  // The bytes added up without wrapping.
  function Total(s: seq<bv8>): nat { if s == [] then 0 else Total(s[..|s| - 1]) + s[|s| - 1] as nat }

  lemma {:induction false} SumIsTotal(s: seq<bv8>)
    ensures Sum(s) == Total(s) % 256
    decreases |s|
  {
    hide Plus;
    if s != [] {
      var n := |s| - 1;
      SumIsTotal(s[..n]);
      PlusTotal(Total(s[..n]), s[n]);
    }
  }

  lemma {:induction false} TotalChanged(s: seq<bv8>, i: nat, b: bv8)
    requires i < |s|
    ensures Total(s[i := b]) == Total(s) - s[i] as int + b as int
    decreases |s|
  {
    var n := |s| - 1;
    if i < n {
      assert s[i := b][..n] == s[..n][i := b];
      TotalChanged(s[..n], i, b);
    } else {
      assert s[i := b][..n] == s[..n];
    }
  }

  lemma {:induction false} TotalFromSecond(s: seq<bv8>)
    requires s != []
    ensures Total(s) == s[0] as int + Total(s[1..])
    decreases |s|
  {
    var n := |s| - 1;
    if n > 0 {
      TotalFromSecond(s[..n]);
      assert s[..n][1..] == s[1..][..n - 1];
    }
  }

  // The answer to a command other than a nonce read is flagged exactly when its second byte is neither the
  // checksum of the command nor one less.
  lemma CommandFlagged(cmd: Command, reply: seq<bv8>)
    requires |reply| == RX_LEN && cmd.code & 0x04 == 0
    ensures var v, off := VerdictOf(cmd, reply), cmd.checksum - reply[1] as int;
      && v.status == reply[0] && v.expected == cmd.checksum && !v.nonceError
      && (v.checksumError <==> off != 0 && off != 1)
  {
  }

  // The answer to a nonce read is flagged exactly when the bytes 1 to 49 add up, modulo 256, to neither byte
  // 50 nor one more.
  lemma NonceFlagged(cmd: Command, reply: seq<bv8>)
    requires |reply| == RX_LEN && cmd.code & 0x04 != 0
    ensures var v, off := VerdictOf(cmd, reply), Total(reply[1..50]) % 256 - reply[50] as int;
      && v.status == reply[0] && v.expected == reply[1] as int && !v.checksumError
      && v.nonceChecksum == Total(reply[1..50]) % 256
      && (v.nonceError <==> off != 0 && off != 1)
  {
    IsNonceReadOf(cmd.code);
    SumFromSecond(reply[1..50]);
    assert reply[1..50][1..] == reply[2..50];
    hide Sum, Total, Plus, IsNonceRead;
  }

  lemma SumFromSecond(s: seq<bv8>)
    requires s != []
    ensures Plus(Sum(s[1..]), s[0]) == Total(s) % 256
  {
    hide Sum, Total;
    TotalFromSecond(s);
    SumIsTotal(s[1..]);
  }

  lemma IsNonceReadOf(code: bv8)
    ensures IsNonceRead(code) <==> code & 0x04 != 0
  {
  }

  // So one that adds up is never flagged, and one damaged byte among those added up is flagged unless it is
  // one too large.
  lemma DamageFlagged(cmd: Command, reply: seq<bv8>, i: nat, b: bv8)
    requires |reply| == RX_LEN && cmd.code & 0x04 != 0 && reply[50] as int == Total(reply[1..50]) % 256
    requires 1 <= i < 50 && b != reply[i]
    ensures !VerdictOf(cmd, reply).nonceError
    ensures VerdictOf(cmd, reply[i := b]).nonceError <==>
      !((b as int - reply[i] as int) % 256 == 1 && reply[50] as int != 255)
  {
    hide Total, VerdictOf;
    var damaged := reply[i := b];
    NonceFlagged(cmd, reply);
    NonceFlagged(cmd, damaged);
    assert damaged[1..50] == reply[1..50][i - 1 := b];
    TotalChanged(reply[1..50], i - 1, b);
    OffBy(Total(reply[1..50]), b as int - reply[i] as int);
  }

  lemma OffBy(total: nat, d: int)
    requires -256 < d < 256 && d != 0 && total + d >= 0
    ensures var off := (total + d) % 256 - total % 256;
      off != 0 && (off == 1 <==> d % 256 == 1 && total % 256 != 255)
  {
  }

  // analyze_rx_data on an answer that has been shifted.
  method Analyze(cmd: Command, reply: array<bv8>) returns (v: Verdict)
    requires reply.Length == RX_LEN
    ensures v == VerdictOf(cmd, reply[..])
  {
    if IsNonceRead(cmd.code) {
      var expected: Byte := reply[1] as int;
      var sum: Byte := 0;
      hide IsNonceRead, Agrees;
      for i := 0 to 48
        invariant sum == Sum(reply[..][2..2 + i])
      {
        assert reply[..][2..2 + (i + 1)][..i] == reply[..][2..2 + i];
        sum := Plus(sum, reply[i + 2]);
      }
      sum := Plus(sum, reply[1]);
      return Verdict(reply[0], expected, expected != reply[1] as int, sum, !Agrees(sum, reply[50]));
    }
    return Verdict(reply[0], cmd.checksum, !Agrees(cmd.checksum, reply[1]), 0, false);
  }

  // How many bytes of the shifted answer mean something.
  function AnswerLength(code: bv8): nat { if IsNonceRead(code) then 49 + 2 else 2 }

  // By how many bits shift_bits moves an answer: 3 per chip passed, but its parameter is a uint8_t.
  function Nbits(depth: nat): nat { depth * 3 % 256 }

  // The answer, and the bytes that shifting it reads, stay inside the rx array.
  predicate Inside(code: bv8, depth: nat) { ReplyLength(code, depth) + Nbits(depth) / 8 < RX_LEN }

  // The count starts again at 86 and at 171.
  lemma Wraps(depth: Byte)
    ensures Nbits(depth) == 3 * depth - if depth <= 85 then 0 else if depth <= 170 then 256 else 512
  {
  }

  // For a nonce read that is a depth of at most 15. For any other command it is a depth of at most 82, or,
  // since the shift count starts again at 86, one from 86 to 125.
  lemma InsideExactly(code: bv8, depth: Byte)
    ensures Inside(code, depth) <==> if IsNonceRead(code) then depth <= 15 else depth <= 82 || 86 <= depth <= 125
  {
    hide IsNonceRead, Nbits;
    Wraps(depth);
  }

  // What cmd_buffer_pop needs to cut the answer to a command out of its slot.
  predicate Cuttable(cmd: Command) {
    if cmd.code == CREATE_CHANNEL then cmd.dataLength <= RX_LEN else Inside(cmd.code, cmd.depth)
  }

  // extra_bytes is enough: the bits that matter all lie in the slot.
  lemma ExtraBytesSuffice(code: bv8, depth: nat)
    ensures 8 * AnswerLength(code) + 3 * depth < 8 * ReplyLength(code, depth)
  {
  }

  // `reply` begins with the `count` bits of `slice` that begin at bit `first`.
  ghost predicate SameBits(slice: seq<bv8>, first: nat, reply: seq<bv8>, count: nat)
    requires first + count <= 8 * |slice| && count <= 8 * |reply|
  {
    forall k: nat | k < count :: Shift.Bit(reply, k) == Shift.Bit(slice, first + k)
  }

  // A slot, and the rx array that its answer is cut into.
  predicate SlotAndReply(cmd: Command, slice: seq<bv8>, reply: seq<bv8>) {
    SlotOk(Slot(cmd, slice)) && |reply| == RX_LEN
  }

  // `reply` holds the answer to `cmd` that `slice`, what was received in its slot, carries: it begins 3 bits
  // per chip passed into the last ReplyLength bytes.
  ghost predicate Answers(cmd: Command, slice: seq<bv8>, reply: seq<bv8>)
    requires SlotAndReply(cmd, slice, reply) && cmd.code != CREATE_CHANNEL
  {
    var tail := 8 * (|slice| - ReplyLength(cmd.code, cmd.depth));
    SameBits(slice, tail + 3 * cmd.depth, reply, 8 * AnswerLength(cmd.code))
  }

  // `reply` is what cmd_buffer_pop cuts out of `slice`. A channel command's slot comes back as it is.
  ghost predicate CutFrom(cmd: Command, slice: seq<bv8>, reply: seq<bv8>)
    requires SlotAndReply(cmd, slice, reply) && Cuttable(cmd)
  {
    if cmd.code == CREATE_CHANNEL then reply[..|slice|] == slice
    else
      var tail := 8 * (|slice| - ReplyLength(cmd.code, cmd.depth));
      SameBits(slice, tail + Nbits(cmd.depth), reply, 8 * AnswerLength(cmd.code))
  }

  // Whatever was received in the slot, what is cut out of it is the answer.
  ghost predicate AlwaysAnswers(cmd: Command)
    requires cmd.code != CREATE_CHANNEL && Cuttable(cmd)
  {
    forall slice: seq<bv8>, reply: seq<bv8> |
      SlotAndReply(cmd, slice, reply) && CutFrom(cmd, slice, reply) :: Answers(cmd, slice, reply)
  }

  // n bytes of which only bit k is set.
  function OneBit(n: nat, k: nat): (s: seq<bv8>)
    requires k < 8 * n
    ensures |s| == n
  {
    Zeros(n)[k / 8 := Shift.Mask(k % 8)]
  }

  lemma MaskBit(i: nat, j: nat)
    requires i < 8 && j < 8
    ensures Shift.ByteBit(Shift.Mask(i), j) <==> i == j
    ensures !Shift.ByteBit(0, j)
  {
  }

  lemma OneBitSet(n: nat, k: nat, j: nat)
    requires k < 8 * n && j < 8 * n
    ensures Shift.Bit(OneBit(n, k), j) <==> j == k
  {
    hide Shift.Mask, Shift.ByteBit;
    MaskBit(k % 8, j % 8);
  }

  // A slot in which a single bit came back, one that is not in the answer but is cut out as bit 0 of it.
  lemma {:induction false} WrongBit(cmd: Command) returns (slice: seq<bv8>, reply: seq<bv8>)
    requires cmd.code != CREATE_CHANNEL && Cuttable(cmd) && ReplyLength(cmd.code, cmd.depth) <= cmd.dataLength
    requires cmd.depth > 85
    ensures SlotAndReply(cmd, slice, reply) && CutFrom(cmd, slice, reply) && !Answers(cmd, slice, reply)
    ensures slice == OneBit(cmd.dataLength, 8 * (cmd.dataLength - ReplyLength(cmd.code, cmd.depth)) + Nbits(cmd.depth))
    ensures reply == OneBit(RX_LEN, 0)
  {
    hide IsNonceRead, OneBit, Shift.Bit;
    ExtraBytesSuffice(cmd.code, cmd.depth);
    var tail := 8 * (cmd.dataLength - ReplyLength(cmd.code, cmd.depth));
    var first, count := tail + Nbits(cmd.depth), 8 * AnswerLength(cmd.code);
    slice, reply := OneBit(cmd.dataLength, first), OneBit(RX_LEN, 0);
    forall k: nat | k < count
      ensures Shift.Bit(reply, k) == Shift.Bit(slice, first + k)
    {
      OneBitSet(RX_LEN, 0, k);
      OneBitSet(cmd.dataLength, first, first + k);
    }
    OneBitSet(RX_LEN, 0, 0);
    OneBitSet(cmd.dataLength, first, tail + 3 * cmd.depth);
    assert Shift.Bit(reply, 0) != Shift.Bit(slice, tail + 3 * cmd.depth + 0);
  }

  // As long as the shift count does not wrap, and no longer, what is cut out is the answer.
  lemma AnswersExactly(cmd: Command)
    requires cmd.code != CREATE_CHANNEL && Cuttable(cmd) && ReplyLength(cmd.code, cmd.depth) <= cmd.dataLength
    ensures AlwaysAnswers(cmd) <==> cmd.depth <= 85
  {
    hide ReplyLength, AnswerLength, SlotOk, Cuttable, SameBits;
    if cmd.depth > 85 {
      var slice, reply := WrongBit(cmd);
    } else {
      assert Nbits(cmd.depth) == 3 * cmd.depth;
    }
  }

  // So the source stays inside the array and cuts out the answer exactly up to a depth of 15 for nonce reads
  // and of 82 for other commands; between 86 and 125 it stays inside and cuts out the wrong bits.
  lemma SafeExactly(cmd: Command)
    requires cmd.code != CREATE_CHANNEL && ReplyLength(cmd.code, cmd.depth) <= cmd.dataLength
    ensures Cuttable(cmd) && AlwaysAnswers(cmd) <==> cmd.depth <= if IsNonceRead(cmd.code) then 15 else 82
  {
    hide IsNonceRead, ReplyLength, Inside, AlwaysAnswers;
    InsideExactly(cmd.code, cmd.depth);
    if Cuttable(cmd) {
      AnswersExactly(cmd);
    }
  }

  lemma SwitchReply()
    ensures ReplyLength(TASK_SWITCH, 86) == 35 && !IsNonceRead(TASK_SWITCH)
  {
  }

  // At a depth of 86 the shift is by 2 bits instead of 258. A switch without data takes 40 bytes, and when all
  // that comes back is bit 2 behind the five bytes of the command, it is taken for bit 0 of the answer.
  lemma DepthEightySix()
    ensures var cmd := Command(Address(0, 0, 0), Address(0, 0, 0), 0, 0, 86, TASK_SWITCH, 40, 0);
      var slice, reply := Zeros(40)[5 := 0x20], Zeros(RX_LEN)[0 := 0x80];
      && SlotAndReply(cmd, slice, reply) && Cuttable(cmd) && CutFrom(cmd, slice, reply) && !Answers(cmd, slice, reply)
  {
    hide CutFrom, Answers, IsNonceRead, ReplyLength, SlotOk, Shift.Bit, Zeros;
    var cmd := Command(Address(0, 0, 0), Address(0, 0, 0), 0, 0, 86, TASK_SWITCH, 40, 0);
    SwitchReply();
    var slice, reply := WrongBit(cmd);
  }

  // The memcpy into the rx array of a command, whose other bytes are zero.
  method CopyOut(tail: seq<bv8>) returns (reply: array<bv8>)
    requires |tail| <= RX_LEN
    ensures fresh(reply) && reply.Length == RX_LEN && reply[..|tail|] == tail
  {
    reply := new bv8[RX_LEN](_ => 0);
    for i := 0 to |tail|
      invariant reply[..i] == tail[..i]
    {
      reply[i] := tail[i];
    }
  }

  lemma CutFits(cmd: Command, slice: seq<bv8>)
    requires SlotOk(Slot(cmd, slice)) && Cuttable(cmd) && cmd.code != CREATE_CHANNEL
    ensures ReplyLength(cmd.code, cmd.depth) + Nbits(cmd.depth) / 8 < RX_LEN
    ensures ReplyLength(cmd.code, cmd.depth) <= |slice| == cmd.dataLength
  {
  }

  // The answer in the last bytes of a slot, up to the shift that analyze_rx_data begins with.
  method CutShifted(cmd: Command, slice: seq<bv8>) returns (reply: array<bv8>)
    requires SlotOk(Slot(cmd, slice)) && Cuttable(cmd) && cmd.code != CREATE_CHANNEL
    ensures fresh(reply) && reply.Length == RX_LEN && CutFrom(cmd, slice, reply[..])
  {
    hide CutFrom, ReplyLength, Inside, SlotOk, Cuttable, IsNonceRead, Shift.Bit;
    CutFits(cmd, slice);
    var n := ReplyLength(cmd.code, cmd.depth);
    reply := CopyOut(slice[|slice| - n..]);
    ghost var raw := reply[..];
    Shift.ShiftBits(reply, n, Nbits(cmd.depth));
    ShiftedIsCut(cmd, slice, raw, reply[..], n);
  }

  // Cutting the answer out of a slot.
  method CutReply(cmd: Command, slice: seq<bv8>) returns (reply: array<bv8>)
    requires SlotOk(Slot(cmd, slice)) && Cuttable(cmd)
    ensures fresh(reply) && reply.Length == RX_LEN && CutFrom(cmd, slice, reply[..])
  {
    if cmd.code == CREATE_CHANNEL {
      reply := CopyOut(slice);
    } else {
      reply := CutShifted(cmd, slice);
    }
  }

  lemma ShiftedIsCut(cmd: Command, slice: seq<bv8>, raw: seq<bv8>, reply: seq<bv8>, n: nat)
    requires SlotAndReply(cmd, slice, reply) && n == ReplyLength(cmd.code, cmd.depth) <= |slice|
    requires cmd.code != CREATE_CHANNEL && Cuttable(cmd)
    requires |raw| == |reply| && n <= RX_LEN && raw[..n] == slice[|slice| - n..]
    requires forall k: nat | k < 8 * n ::
      k + Nbits(cmd.depth) < 8 * |raw| && Shift.Bit(reply, k) == Shift.Bit(raw, k + Nbits(cmd.depth))
    ensures CutFrom(cmd, slice, reply)
  {
    ExtraBytesSuffice(cmd.code, cmd.depth);
    hide ReplyLength, Shift.Bit;
    forall k: nat | k < 8 * AnswerLength(cmd.code)
      ensures Shift.Bit(reply, k) == Shift.Bit(slice, 8 * (|slice| - n) + Nbits(cmd.depth) + k)
    {
      TailBit(slice, raw, n, k + Nbits(cmd.depth));
    }
  }

  lemma TailBit(slice: seq<bv8>, raw: seq<bv8>, n: nat, k: nat)
    requires n <= |slice| && n <= |raw| && raw[..n] == slice[|slice| - n..] && k < 8 * n
    ensures Shift.Bit(raw, k) == Shift.Bit(slice, 8 * (|slice| - n) + k)
  {
    var m := 8 * (|slice| - n) + k;
    assert m / 8 == |slice| - n + k / 8 && m % 8 == k % 8;
    assert raw[k / 8] == raw[..n][k / 8] == slice[m / 8];
  }

  // Everything a pop says about a command: the bytes of its answer, and the verdict on them.
  ghost predicate Answered(cmd: Command, slice: seq<bv8>, reply: seq<bv8>, verdict: Verdict) {
    && SlotAndReply(cmd, slice, reply) && Cuttable(cmd) && CutFrom(cmd, slice, reply)
    && (cmd.code != CREATE_CHANNEL ==> verdict == VerdictOf(cmd, reply))
  }

  function Concat(slices: seq<seq<bv8>>): seq<bv8> {
    if slices == [] then [] else Concat(slices[..|slices| - 1]) + slices[|slices| - 1]
  }

  // `cmd` was the i-th pushed, and its slot lies between `from` and `to`.
  ghost predicate SlotAt(log: seq<Slot>, i: nat, cmd: Command, from: int, to: int) {
    i < |log| && cmd == log[i].cmd && from == Offset(log, i) && to == Offset(log, i + 1)
  }

  lemma PopFacts(log: seq<Slot>, waiting: seq<Command>, rxOffset: int, tx: seq<bv8>, txOffset: int, freeBytes: int)
    requires Queued(log, waiting, rxOffset) && waiting != [] && LaidOut(log, tx, txOffset, freeBytes)
    ensures |waiting| <= |log| && SlotAt(log, |log| - |waiting|, waiting[0], rxOffset, rxOffset + waiting[0].dataLength)
    ensures 0 <= rxOffset && rxOffset + waiting[0].dataLength <= txOffset <= CMD_BUFFER_LEN
    ensures Queued(log, waiting[1..], rxOffset + waiting[0].dataLength)
    ensures SlotOk(Slot(waiting[0], log[|log| - |waiting|].bytes))
  {
    QueuedPop(log, waiting, rxOffset);
    SlotsTile(log, |log| - |waiting|);
    assert SlotOk(log[|log| - |waiting|]);
    hide Layout;
  }

  lemma AnyBytes(cmd: Command, bytes: seq<bv8>, slice: seq<bv8>)
    requires SlotOk(Slot(cmd, bytes)) && |slice| == cmd.dataLength
    ensures SlotOk(Slot(cmd, slice))
  {
  }

  // What has been popped so far: the first commands of the log, and slices that make up rx[..rxOffset].
  ghost predicate ReadSoFar(log: seq<Slot>, cmds: seq<Command>, slices: seq<seq<bv8>>, rx: seq<bv8>, rxOffset: int) {
    && |cmds| == |slices| <= |log| && cmds == Commands(log)[..|cmds|]
    && 0 <= rxOffset <= |rx| && rxOffset == Offset(log, |cmds|) && Concat(slices) == rx[..rxOffset]
    && forall j | 0 <= j < |slices| :: |slices[j]| == |log[j].bytes|
  }

  lemma ReadStep(log: seq<Slot>, cmds: seq<Command>, slices: seq<seq<bv8>>, rx: seq<bv8>, from: int, to: int,
                 cmd: Command)
    requires ReadSoFar(log, cmds, slices, rx, from) && SlotAt(log, |cmds|, cmd, from, to) && 0 <= from <= to <= |rx|
    ensures ReadSoFar(log, cmds + [cmd], slices + [rx[from..to]], rx, to)
  {
    SlotsTile(log, |cmds|);
    hide Layout;
    assert (slices + [rx[from..to]])[..|slices|] == slices;
    assert rx[..from] + rx[from..to] == rx[..to];
    assert Commands(log)[..|cmds| + 1] == Commands(log)[..|cmds|] + [cmd];
  }

  lemma AllRead(log: seq<Slot>, cmds: seq<Command>, slices: seq<seq<bv8>>, rx: seq<bv8>, rxOffset: int, tx: seq<bv8>,
                txOffset: int, freeBytes: int)
    requires ReadSoFar(log, cmds, slices, rx, rxOffset) && |cmds| == |log| && LaidOut(log, tx, txOffset, freeBytes)
    ensures cmds == Commands(log) && 0 <= rxOffset == txOffset <= |rx| && Tiles(log, slices, rx[..txOffset])
  {
    assert log[..|log|] == log;
  }

  // The slices are what was received, cut where the commands were laid out.
  ghost predicate Tiles(log: seq<Slot>, slices: seq<seq<bv8>>, received: seq<bv8>) {
    && |slices| == |log| && Concat(slices) == received
    && forall i | 0 <= i < |log| :: |slices[i]| == |log[i].bytes|
  }

  lemma NothingRead(log: seq<Slot>, waiting: seq<Command>, rxOffset: int, rx: seq<bv8>)
    requires Queued(log, waiting, rxOffset) && |waiting| == |log|
    ensures ReadSoFar(log, [], [], rx, rxOffset)
  {
  }

  class Buffer {
    const list: List<Command>
    const tx: array<bv8>
    const rx: array<bv8>
    var freeBytes: int
    var txOffset: int
    var rxOffset: int
    var status: Status
    ghost var log: seq<Slot>   // everything pushed since the last clear

    ghost predicate Valid()
      reads this, list, list.nodes, tx
    {
      && list.Valid() && tx != rx && rx.Length == CMD_BUFFER_LEN
      && LaidOut(log, tx[..], txOffset, freeBytes)
      && Queued(log, Data(list.nodes), rxOffset)
      && (status != Executed ==> |list.nodes| == |log|)
    }

    // cmd_buffer_init
    constructor ()
      ensures Valid() && log == [] && status == Empty && freeBytes == CMD_BUFFER_LEN
      ensures fresh(list) && fresh(tx) && fresh(rx)
    {
      list := new List<Command>();
      tx := new bv8[CMD_BUFFER_LEN](_ => 0);
      rx := new bv8[CMD_BUFFER_LEN](_ => 0);
      freeBytes, txOffset, rxOffset, status, log := CMD_BUFFER_LEN, 0, 0, Empty, [];
    }

    // The memcpy into tx_buffer.
    method CopyIn(bytes: seq<bv8>)
      requires 0 <= txOffset && txOffset + |bytes| <= tx.Length
      modifies tx
      ensures tx[..][..txOffset + |bytes|] == old(tx[..])[..txOffset] + bytes
    {
      for i := 0 to |bytes|
        invariant tx[..txOffset] == old(tx[..txOffset])
        invariant tx[txOffset..txOffset + i] == bytes[..i]
      {
        tx[txOffset + i] := bytes[i];
      }
    }

    // Lay the bytes of a slot out behind the others.
    method PutBytes(slot: Slot)
      requires LaidOut(log, tx[..], txOffset, freeBytes) && SlotOk(slot) && |slot.bytes| <= freeBytes
      modifies `txOffset, `freeBytes, tx
      ensures LaidOut(log + [slot], tx[..], txOffset, freeBytes) && freeBytes == old(freeBytes) - |slot.bytes|
    {
      ghost var tx0 := tx[..];
      assert slot.cmd.dataLength == |slot.bytes| && 0 <= txOffset && txOffset + |slot.bytes| <= tx.Length;
      hide LaidOut, SlotOk;
      CopyIn(slot.bytes);
      LaidOutSnoc(log, tx0, txOffset, freeBytes, slot, tx[..]);
      txOffset := txOffset + slot.cmd.dataLength;
      freeBytes := freeBytes - slot.cmd.dataLength;
    }

    // The end of cmd_buffer_push, for a command that fits.
    method Append(slot: Slot)
      requires Valid() && SlotOk(slot) && status != Executed && |slot.bytes| <= freeBytes
      modifies this, list, list.nodes, tx
      ensures Valid() && log == old(log) + [slot] && status == old(status)
      ensures freeBytes == old(freeBytes) - |slot.bytes|
      ensures |list.nodes| == |old(list.nodes)| + 1 && list.nodes[..|old(list.nodes)|] == old(list.nodes)
      ensures fresh(list.nodes[|old(list.nodes)|])
    {
      hide LaidOut, Queued, SlotOk, Data, Linked;
      QueuedSnoc(log, Data(list.nodes), rxOffset, slot);
      PutBytes(slot);
      list.Enqueue(slot.cmd);
      log := log + [slot];
    }

    // cmd_buffer_push
    method Push(depth: Byte, chip: Address, src: Address, work: nat, id: nat, code: bv8, dataLength: Byte,
                data: array?<bv8>)
        returns (res: int)
      requires Valid() && data != tx
      requires code == CREATE_CHANNEL ==> data != null && data.Length >= dataLength
      requires FitsBuff(code, dataLength, depth)
      requires code != CREATE_CHANNEL && data != null && 0 < dataLength <= 79 ==> data.Length > dataLength
      modifies this, list, list.nodes, tx
      ensures Valid() && status == old(status)
      ensures res == -2 <==> old(status) == Executed
      ensures res == 1 <==> old(status) != Executed && Unsendable(chip, code, dataLength, data != null)
      ensures res == -2 || res == 1 || res == -3 || res == 0
      ensures res == 0 || res == -3 ==>
        var slot := SlotOf(chip, src, work, id, depth, code, dataLength, if data == null then [] else old(data[..]));
        && (res == -3 <==> old(freeBytes) < |slot.bytes|)
        && log == if res == 0 then old(log) + [slot] else old(log)
      ensures res != 0 ==> unchanged(this, list, old(list.nodes)) && tx[..] == old(tx[..])
      ensures res == 0 ==> freeBytes == old(freeBytes) - |log[|log| - 1].bytes|
      ensures |old(list.nodes)| <= |list.nodes| && list.nodes[..|old(list.nodes)|] == old(list.nodes)
      ensures fresh(list.nodes[|old(list.nodes)|..])
    {
      hide LaidOut, Queued, SlotOk, Data, Linked, SlotOf;
      if status == Executed {
        return -2;
      }
      var r := MakeSlot(depth, chip, src, work, id, code, dataLength, data);
      if r.Invalid? {
        return 1;
      }
      if freeBytes < |r.slot.bytes| {
        return -3;
      }
      Append(r.slot);
      return 0;
    }

    // The driver's last step in filling the buffer.
    method Ready()
      requires Valid() && status == Empty
      modifies `status
      ensures Valid() && status == TxReady
    {
      hide LaidOut, Queued, Data, Linked;
      status := TxReady;
    }

    // cmd_buffer_exec; `answer` is what the chips send while the buffer goes out.
    method Exec(answer: seq<bv8>) returns (res: int)
      requires Valid() && (status == TxReady ==> |answer| == txOffset)
      modifies `status, rx
      ensures Valid()
      ensures res == if old(status) == TxReady then 0 else -2
      ensures res == 0 ==> status == Executed && txOffset <= rx.Length && rx[..txOffset] == answer
      ensures res == 0 ==> forall j | txOffset <= j < rx.Length :: rx[j] == old(rx[j])
      ensures res != 0 ==> status == old(status) && rx[..] == old(rx[..])
    {
      if status != TxReady {
        return -2;
      }
      assert 0 <= txOffset <= rx.Length;
      hide LaidOut, Queued, Data, Linked;
      for i := 0 to |answer|
        invariant rx[..i] == answer[..i] && forall j | txOffset <= j < rx.Length :: rx[j] == old(rx[j])
      {
        rx[i] := answer[i];
      }
      status := Executed;
      return 0;
    }

    // The first waiting command, the i-th pushed, leaves the list, and rx_offset moves over its slot.
    method Take() returns (cmd: Command, slice: seq<bv8>, ghost i: nat)
      requires Valid() && status == Executed && list.nodes != []
      modifies `rxOffset, list, list.nodes
      ensures Valid() && list.nodes == old(list.nodes)[1..] && i + |old(list.nodes)| == |log|
      ensures SlotAt(log, i, cmd, old(rxOffset), rxOffset)
      ensures 0 <= old(rxOffset) <= rxOffset <= txOffset <= rx.Length && slice == rx[old(rxOffset)..rxOffset]
      ensures SlotOk(Slot(cmd, slice))
    {
      hide LaidOut, Queued, Data, Linked, SlotOk, SlotAt;
      PopFacts(log, Data(list.nodes), rxOffset, tx[..], txOffset, freeBytes);
      i := |log| - |list.nodes|;
      cmd := list.Dequeue();
      slice := rx[rxOffset..rxOffset + cmd.dataLength];
      AnyBytes(cmd, log[i].bytes, slice);
      rxOffset := rxOffset + cmd.dataLength;
    }

    lemma HeadOfQueue()
      requires Valid()
      ensures list.head == null <==> list.nodes == []
      ensures |list.nodes| <= |log|
    {
      hide LaidOut;
    }

    // cmd_buffer_pop. The i-th pop answers the i-th push. `verdict` is not filled in for a channel command;
    // `reply` is null exactly when the source would run over the rx array.
    method Pop() returns (res: int, cmd: Command, reply: array?<bv8>, verdict: Verdict, ghost i: nat)
      requires Valid()
      modifies `rxOffset, list, list.nodes
      ensures Valid()
      ensures res == if status != Executed then -2 else if old(list.nodes) == [] then -3 else 0
      ensures res != 0 ==> unchanged(this, list, old(list.nodes))
      ensures i + |old(list.nodes)| == |log|
      ensures res == 0 ==> list.nodes == old(list.nodes)[1..] && SlotAt(log, i, cmd, old(rxOffset), rxOffset)
      ensures res == 0 ==> 0 <= old(rxOffset) <= rxOffset <= txOffset <= rx.Length
      ensures res == 0 ==> (reply != null <==> Cuttable(cmd))
      ensures res == 0 && Cuttable(cmd) ==> Answered(cmd, rx[old(rxOffset)..rxOffset], reply[..], verdict)
    {
      hide LaidOut, Queued, Data, Linked, SlotOk, SlotAt, CutFrom, VerdictOf, Cuttable;
      HeadOfQueue();
      i := |log| - |list.nodes|;
      cmd, reply := Command(Address(0, 0, 0), Address(0, 0, 0), 0, 0, 0, 0, 0, 0), null;
      verdict := Verdict(0, 0, false, 0, false);
      if status != Executed {
        return -2, cmd, reply, verdict, i;
      }
      if list.head == null {
        return -3, cmd, reply, verdict, i;
      }
      var slice;
      cmd, slice, i := Take();
      if Cuttable(cmd) {
        reply := CutReply(cmd, slice);
        if cmd.code != CREATE_CHANNEL {
          verdict := Analyze(cmd, reply);
        }
      }
      return 0, cmd, reply, verdict, i;
    }

    // The loop of process_cmd_buffer with counters that do not wrap; CounterReaches says when the source's
    // loop ends and when it pops all. It pops all the commands in the order they were pushed.
    method PopAll() returns (cmds: seq<Command>, ghost slices: seq<seq<bv8>>)
      requires Valid() && status == Executed && |list.nodes| == |log|
      modifies `rxOffset, list, list.nodes
      ensures Valid() && list.nodes == []
      ensures cmds == Commands(log) && 0 <= txOffset <= rx.Length && Tiles(log, slices, rx[..txOffset])
    {
      hide LaidOut, Queued, Data, Linked, SlotAt, ReadSoFar, Tiles, Commands, Answered;
      NothingRead(log, Data(list.nodes), rxOffset, rx[..]);
      cmds, slices := [], [];
      var n := list.count;
      ghost var all := list.nodes;
      var i := 0;
      while i < n
        invariant Valid() && 0 <= i <= n == |all| == |log| && list.nodes == all[i..]
        invariant |cmds| == i && ReadSoFar(log, cmds, slices, rx[..], rxOffset)
        decreases n - i
      {
        ghost var from := rxOffset;
        assert forall o | o in list.nodes :: o in all;
        var res, cmd, reply, verdict, k := Pop();
        ReadStep(log, cmds, slices, rx[..], from, rxOffset, cmd);
        slices := slices + [rx[..][from..rxOffset]];
        cmds := cmds + [cmd];
        i := i + 1;
      }
      AllRead(log, cmds, slices, rx[..], rxOffset, tx[..], txOffset, freeBytes);
      assert rx[..][..txOffset] == rx[..txOffset];
    }

    // cmd_buffer_clear
    method Clear()
      requires Valid()
      modifies this, list, list.nodes, tx, rx
      ensures Valid() && log == [] && status == Empty
      ensures txOffset == rxOffset == 0 && freeBytes == CMD_BUFFER_LEN && list.nodes == []
      ensures tx[..] == rx[..] == Zeros(CMD_BUFFER_LEN)
    {
      assert tx.Length == CMD_BUFFER_LEN;
      hide Linked, LaidOut, Queued, Data;
      list.Clear();
      MemZero(tx);
      MemZero(rx);
      freeBytes, txOffset, rxOffset, status, log := CMD_BUFFER_LEN, 0, 0, Empty, [];
      NothingLaidOut(tx[..]);
    }
  }

  lemma NothingLaidOut(tx: seq<bv8>)
    requires |tx| == CMD_BUFFER_LEN
    ensures LaidOut([], tx, 0, CMD_BUFFER_LEN) && Queued([], [], 0) && Data<Command>([]) == []
  {
  }

  method MemZero(a: array<bv8>)
    modifies a
    ensures a[..] == Zeros(a.Length)
  {
    for i := 0 to a.Length
      invariant forall j | 0 <= j < i :: a[j] == 0
    {
      a[i] := 0;
    }
  }

  // ---------------------------------------------------------------- the counter of process_cmd_buffer

  // What a uint8_t holds after this many increments.
  function Counter(steps: nat): nat { steps % 256 }

  // The uint16_t copy of the number of commands.
  function CmdNumber(count: nat): nat { count % 65536 }

  // With `count` commands in the list the loop is left after this many pops.
  ghost predicate EndsAfter(count: nat, steps: nat) {
    Counter(steps) >= CmdNumber(count) && forall s: nat | s < steps :: Counter(s) < CmdNumber(count)
  }

  // The loop ends exactly when the copy is below 256, and it has then popped every command exactly when there
  // are fewer than 256: from 65536 commands on the copy may be small although the list is long.
  lemma CounterReaches(count: nat)
    ensures (exists steps: nat :: EndsAfter(count, steps)) <==> count % 65536 < 256
    ensures EndsAfter(count, count) <==> count < 256
    ensures forall steps: nat | EndsAfter(count, steps) :: steps == count % 65536
  {
    if CmdNumber(count) < 256 {
      assert EndsAfter(count, CmdNumber(count));
    }
    assert Counter(CmdNumber(count)) == CmdNumber(count) % 256;
  }

  // What the smallest commands take of the buffer: eight bytes, or nothing for an empty channel path.
  function SmallestSize(code: bv8): nat { if code == CREATE_CHANNEL then 0 else 8 }

  lemma SmallestSlot(code: bv8)
    requires code == TASK_SWITCH || code == CREATE_CHANNEL
    ensures |SlotOf(Address(0, 0, 0), Address(0, 0, 0), 0, 0, 0, code, 0, []).bytes| == SmallestSize(code)
    ensures FitsBuff(code, 0, 0) && !Unsendable(Address(0, 0, 0), code, 0, true)
  {
    if code == TASK_SWITCH {
      assert !IsNonceRead(TASK_SWITCH);
      SlotBytes(Address(0, 0, 0), Address(0, 0, 0), 0, 0, 0, TASK_SWITCH, 0, []);
      hide SlotOf;
    }
  }

  // So up to 512 commands are accepted, and any number of channel commands without a path: buffers with 256
  // commands and with 65536 are reachable.
  method ManyCommands(n: nat, code: bv8) returns (b: Buffer)
    requires code == CREATE_CHANNEL || (code == TASK_SWITCH && n <= 512)
    ensures fresh(b) && b.Valid() && b.status == Empty && b.list.count == |b.log| == n
  {
    hide Layout, SlotOf, SlotOk, Unsendable, FitsBuff, Linked, Queued;
    b := new Buffer();
    SmallestSlot(code);
    var here, data := Address(0, 0, 0), new bv8[0];
    for i := 0 to n
      invariant fresh(b) && fresh(b.list) && fresh(b.tx) && fresh(b.rx) && data != b.tx
      invariant forall k | 0 <= k < |b.list.nodes| :: fresh(b.list.nodes[k])
      invariant b.Valid() && b.status == Empty && |b.log| == i
      invariant b.freeBytes == CMD_BUFFER_LEN - SmallestSize(code) * i
    {
      ghost var nodes := b.list.nodes;
      assert data[..] == [];
      var res := b.Push(0, here, here, 0, 0, code, 0, data);
      forall k | 0 <= k < |b.list.nodes| ensures fresh(b.list.nodes[k]) {
        assert b.list.nodes[k] == if k < |nodes| then nodes[k] else b.list.nodes[|nodes|..][k - |nodes|];
      }
    }
  }
}
