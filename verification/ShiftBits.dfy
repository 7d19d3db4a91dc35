/**
 shift_bits of bf16-bitfury16.c: a chip's answer arrives 3 bits late for every chip it passes through,
 and the buffer is moved forward by that many bits, in place.
 */
module ShiftBits {

  type Size = n: nat | n < 256

  function Mask(j: nat): bv8 {
    if j == 0 then 0x80 else if j == 1 then 0x40 else if j == 2 then 0x20 else if j == 3 then 0x10
    else if j == 4 then 0x08 else if j == 5 then 0x04 else if j == 6 then 0x02 else 0x01
  }

  // Bit j of a byte, the most significant first.
  predicate ByteBit(x: bv8, j: nat) { x & Mask(j) != 0 }

  lemma BitIsDigit(x: bv8, j: nat)
    requires j < 8
    ensures ByteBit(x, j) <==> (x >> (7 - j)) & 1 == 1
  {
  }

  // Bit k of a string of bytes.
  predicate Bit(s: seq<bv8>, k: nat)
    requires k < 8 * |s|
  {
    ByteBit(s[k / 8], k % 8)
  }

  // The byte that starts `bits` bits into `hi` and runs on into `lo`.
  function Merge(hi: bv8, lo: bv8, bits: nat): bv8
    requires bits < 8
  {
    (hi << bits) | (lo >> (8 - bits))
  }

  lemma Merge0(hi: bv8, lo: bv8, j: nat)
    requires j < 8
    ensures ByteBit(Merge(hi, lo, 0), j) == ByteBit(hi, j)
  {
  }

  lemma Merge1(hi: bv8, lo: bv8, j: nat)
    requires j < 8
    ensures ByteBit(Merge(hi, lo, 1), j) == if j + 1 < 8 then ByteBit(hi, j + 1) else ByteBit(lo, j + 1 - 8)
  {
  }

  lemma Merge2(hi: bv8, lo: bv8, j: nat)
    requires j < 8
    ensures ByteBit(Merge(hi, lo, 2), j) == if j + 2 < 8 then ByteBit(hi, j + 2) else ByteBit(lo, j + 2 - 8)
  {
  }

  lemma Merge3(hi: bv8, lo: bv8, j: nat)
    requires j < 8
    ensures ByteBit(Merge(hi, lo, 3), j) == if j + 3 < 8 then ByteBit(hi, j + 3) else ByteBit(lo, j + 3 - 8)
  {
  }

  lemma Merge4(hi: bv8, lo: bv8, j: nat)
    requires j < 8
    ensures ByteBit(Merge(hi, lo, 4), j) == if j + 4 < 8 then ByteBit(hi, j + 4) else ByteBit(lo, j + 4 - 8)
  {
  }

  lemma Merge5(hi: bv8, lo: bv8, j: nat)
    requires j < 8
    ensures ByteBit(Merge(hi, lo, 5), j) == if j + 5 < 8 then ByteBit(hi, j + 5) else ByteBit(lo, j + 5 - 8)
  {
  }

  lemma Merge6(hi: bv8, lo: bv8, j: nat)
    requires j < 8
    ensures ByteBit(Merge(hi, lo, 6), j) == if j + 6 < 8 then ByteBit(hi, j + 6) else ByteBit(lo, j + 6 - 8)
  {
  }

  lemma Merge7(hi: bv8, lo: bv8, j: nat)
    requires j < 8
    ensures ByteBit(Merge(hi, lo, 7), j) == if j + 7 < 8 then ByteBit(hi, j + 7) else ByteBit(lo, j + 7 - 8)
  {
  }

  lemma MergeBit(hi: bv8, lo: bv8, bits: nat, j: nat)
    requires bits < 8 && j < 8
    ensures ByteBit(Merge(hi, lo, bits), j) == if j + bits < 8 then ByteBit(hi, j + bits) else ByteBit(lo, j + bits - 8)
  {
    hide Merge, ByteBit;
    match bits {
      case 0 => Merge0(hi, lo, j);
      case 1 => Merge1(hi, lo, j);
      case 2 => Merge2(hi, lo, j);
      case 3 => Merge3(hi, lo, j);
      case 4 => Merge4(hi, lo, j);
      case 5 => Merge5(hi, lo, j);
      case 6 => Merge6(hi, lo, j);
      case _ => Merge7(hi, lo, j);
    }
  }

  // Where bit k + nbits lies.
  lemma BitPlace(k: nat, nbits: nat)
    ensures k % 8 + nbits % 8 < 8 ==> (k + nbits) / 8 == k / 8 + nbits / 8 && (k + nbits) % 8 == k % 8 + nbits % 8
    ensures k % 8 + nbits % 8 >= 8 ==>
      (k + nbits) / 8 == k / 8 + nbits / 8 + 1 && (k + nbits) % 8 == k % 8 + nbits % 8 - 8
  {
  }

  // The first `size` bytes of t are the bits of s that start at bit nbits.
  lemma ShiftedBit(s: seq<bv8>, t: seq<bv8>, size: nat, nbits: nat, k: nat)
    requires size + nbits / 8 < |s| && |t| == |s| && k < 8 * size
    requires forall i | 0 <= i < size :: t[i] == Merge(s[i + nbits / 8], s[i + nbits / 8 + 1], nbits % 8)
    ensures k + nbits < 8 * |s| && Bit(t, k) == Bit(s, k + nbits)
  {
    hide Merge, ByteBit;
    BitPlace(k, nbits);
    var i := k / 8;
    assert t[i] == Merge(s[i + nbits / 8], s[i + nbits / 8 + 1], nbits % 8);
    MergeBit(s[i + nbits / 8], s[i + nbits / 8 + 1], nbits % 8, k % 8);
  }

  // The body of the loop: data[i + bytes] may be data[i] itself.
  method ShiftOne(data: array<bv8>, i: nat, bytes: nat, bits: nat)
    requires i + bytes + 1 < data.Length && bits < 8
    modifies data
    ensures data[..] == old(data[..])[i := Merge(old(data[i + bytes]), old(data[i + bytes + 1]), bits)]
  {
    data[i] := data[i + bytes] << bits;
    var minor := data[i + bytes + 1] >> (8 - bits);
    data[i] := data[i] | minor;
  }

  ghost predicate ShiftedBytes(s: seq<bv8>, t: seq<bv8>, size: nat, nbits: nat)
    requires size + nbits / 8 < |s| && |t| == |s|
  {
    forall i | 0 <= i < size :: t[i] == Merge(s[i + nbits / 8], s[i + nbits / 8 + 1], nbits % 8)
  }

  lemma ShiftedBits(s: seq<bv8>, t: seq<bv8>, size: nat, nbits: nat)
    requires size + nbits / 8 < |s| && |t| == |s| && ShiftedBytes(s, t, size, nbits)
    ensures forall k: nat | k < 8 * size :: k + nbits < 8 * |s| && Bit(t, k) == Bit(s, k + nbits)
  {
    forall k: nat | k < 8 * size ensures k + nbits < 8 * |s| && Bit(t, k) == Bit(s, k + nbits) {
      ShiftedBit(s, t, size, nbits, k);
    }
  }

  // shift_bits. The caller provides nbits / 8 + 1 bytes behind the `size` that are rewritten.
  method ShiftBits(data: array<bv8>, size: Size, nbits: Size)
    requires size + nbits / 8 < data.Length
    modifies data
    ensures forall k: nat | k < 8 * size ::
      k + nbits < 8 * data.Length && Bit(data[..], k) == Bit(old(data[..]), k + nbits)
    ensures data[size..] == old(data[size..])
  {
    ghost var s := data[..];
    var bytes, bits := nbits / 8, nbits % 8;
    hide Merge, Bit;
    for i := 0 to size
      invariant ShiftedBytes(s, data[..], i, nbits)
      invariant data[i..] == s[i..]
    {
      ShiftOne(data, i, bytes, bits);
    }
    ShiftedBits(s, data[..], size, nbits);
  }
}
