/** Bytes as bit vectors, as eight bits and as numbers. */
module Bytes {

  /** The eight bits of a byte, most significant first. */
  function ByteBits(b: bv8): (bits: seq<bool>)
    ensures |bits| == 8
  {
    [b & 0x80 != 0, b & 0x40 != 0, b & 0x20 != 0, b & 0x10 != 0,
     b & 0x08 != 0, b & 0x04 != 0, b & 0x02 != 0, b & 0x01 != 0]
  }

  function Weight(bit: bool, weight: bv8): bv8 { if bit then weight else 0 }

  /** `int(bits, 2)` for eight bits. */
  function BitsByte(bits: seq<bool>): bv8
    requires |bits| == 8
  {
    Weight(bits[0], 0x80) | Weight(bits[1], 0x40) | Weight(bits[2], 0x20) | Weight(bits[3], 0x10)
    | Weight(bits[4], 0x08) | Weight(bits[5], 0x04) | Weight(bits[6], 0x02) | Weight(bits[7], 0x01)
  }

  lemma ByteBitsRoundTrip(b: bv8)
    ensures BitsByte(ByteBits(b)) == b
  {}

  lemma MaskedWeights(a: bv8, b: bv8, c: bv8, d: bv8, e: bv8, f: bv8, g: bv8, h: bv8)
    requires a & 0x80 == a && b & 0x40 == b && c & 0x20 == c && d & 0x10 == d
    requires e & 0x08 == e && f & 0x04 == f && g & 0x02 == g && h & 0x01 == h
    ensures var x := a | b | c | d | e | f | g | h;
            && x & 0x80 == a && x & 0x40 == b && x & 0x20 == c && x & 0x10 == d
            && x & 0x08 == e && x & 0x04 == f && x & 0x02 == g && x & 0x01 == h
  {}

  lemma WeightBit(bit: bool, weight: bv8)
    requires weight != 0
    ensures Weight(bit, weight) & weight == Weight(bit, weight)
    ensures Weight(bit, weight) != 0 <==> bit
  {}

  lemma MaskedBits(bits: seq<bool>)
    requires |bits| == 8
    ensures var x := BitsByte(bits);
            && (x & 0x80 == Weight(bits[0], 0x80)) && (x & 0x40 == Weight(bits[1], 0x40))
            && (x & 0x20 == Weight(bits[2], 0x20)) && (x & 0x10 == Weight(bits[3], 0x10))
            && (x & 0x08 == Weight(bits[4], 0x08)) && (x & 0x04 == Weight(bits[5], 0x04))
            && (x & 0x02 == Weight(bits[6], 0x02)) && (x & 0x01 == Weight(bits[7], 0x01))
  {
    hide Weight;
    WeightBit(bits[0], 0x80);
    WeightBit(bits[1], 0x40);
    WeightBit(bits[2], 0x20);
    WeightBit(bits[3], 0x10);
    WeightBit(bits[4], 0x08);
    WeightBit(bits[5], 0x04);
    WeightBit(bits[6], 0x02);
    WeightBit(bits[7], 0x01);
    MaskedWeights(Weight(bits[0], 0x80), Weight(bits[1], 0x40), Weight(bits[2], 0x20), Weight(bits[3], 0x10),
                  Weight(bits[4], 0x08), Weight(bits[5], 0x04), Weight(bits[6], 0x02), Weight(bits[7], 0x01));
  }

  lemma BitsByteRoundTrip(bits: seq<bool>)
    requires |bits| == 8
    ensures ByteBits(BitsByte(bits)) == bits
  {
    hide Weight, BitsByte;
    MaskedBits(bits);
    WeightBit(bits[0], 0x80);
    WeightBit(bits[1], 0x40);
    WeightBit(bits[2], 0x20);
    WeightBit(bits[3], 0x10);
    WeightBit(bits[4], 0x08);
    WeightBit(bits[5], 0x04);
    WeightBit(bits[6], 0x02);
    WeightBit(bits[7], 0x01);
  }

  // ----- Bytes as numbers -----

  function Power2(n: nat): nat { if n == 0 then 1 else 2 * Power2(n - 1) }

  /** `int(bits, 2)` as a number. */
  function Number(bits: seq<bool>): (n: nat)
    ensures n < Power2(|bits|)
  {
    if bits == [] then 0
    else 2 * Number(bits[..|bits| - 1]) + if bits[|bits| - 1] then 1 else 0
  }

  /** The low binary digits of a number, most significant first. */
  function Digits(n: nat, width: nat): (bits: seq<bool>)
    ensures |bits| == width
  {
    if width == 0 then [] else Digits(n / 2, width - 1) + [n % 2 == 1]
  }

  function ByteOf(n: nat): bv8
    requires n < 0x100
  {
    BitsByte(Digits(n, 8))
  }

  lemma EightBits()
    ensures Power2(8) == 0x100
  {
    assert Power2(4) == 16;
    assert Power2(6) == 4 * Power2(4);
  }

  function ValueOf(b: bv8): (n: nat)
    ensures n < 0x100
  {
    EightBits();
    Number(ByteBits(b))
  }

  lemma {:induction false} NumberOfDigits(n: nat, width: nat)
    requires n < Power2(width)
    ensures Number(Digits(n, width)) == n
  {
    if width > 0 {
      NumberOfDigits(n / 2, width - 1);
    }
  }

  lemma {:induction false} DigitsOfNumber(bits: seq<bool>)
    ensures Digits(Number(bits), |bits|) == bits
  {
    if bits != [] {
      DigitsOfNumber(bits[..|bits| - 1]);
    }
  }

  lemma ByteOfValue(n: nat, b: bv8)
    requires n < 0x100
    ensures ByteOf(n) == b <==> n == ValueOf(b)
  {
    hide BitsByte, ByteBits, Digits, Number;
    EightBits();
    BitsByteRoundTrip(Digits(n, 8));
    NumberOfDigits(n, 8);
    DigitsOfNumber(ByteBits(b));
    ByteBitsRoundTrip(b);
  }

  /** `value & 0xFF` on an unbounded two's-complement integer. */
  function LowByte(value: int): bv8 { ByteOf(value % 0x100) }

  lemma LowByteIs(value: int, b: bv8)
    ensures LowByte(value) == b <==> value % 0x100 == ValueOf(b)
  {
    hide ByteOf, ValueOf;
    ByteOfValue(value % 0x100, b);
  }
}
