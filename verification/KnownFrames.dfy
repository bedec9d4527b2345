/**
  Reference values that the repository's own tests pin, as anchors for the bit layouts of this model.
 */
module KnownFrames {
  import opened Bytes
  import opened Packet
  import opened Ecc
  import opened Waveform
  import opened Pulse
  import opened StateCodec

  const REMOTE := Legacy(0x3B3F02, EccProfile(5, 7, 1, 8))

  function Unit(bit: bool): nat { if bit then 1 else 0 }

  lemma NumberOfEight(bits: seq<bool>)
    requires |bits| == 8
    ensures Number(bits)
         == 128 * Unit(bits[0]) + 64 * Unit(bits[1]) + 32 * Unit(bits[2]) + 16 * Unit(bits[3])
            + 8 * Unit(bits[4]) + 4 * Unit(bits[5]) + 2 * Unit(bits[6]) + Unit(bits[7])
  {
    assert bits[..8] == bits;
    forall n | 0 < n <= 8 ensures Number(bits[..n]) == 2 * Number(bits[..n - 1]) + Unit(bits[n - 1]) {
      assert bits[..n][..n - 1] == bits[..n - 1];
    }
    assert Number(bits[..0]) == 0;
    assert Number(bits[..4]) == 8 * Unit(bits[0]) + 4 * Unit(bits[1]) + 2 * Unit(bits[2]) + Unit(bits[3]) by {
      assert Number(bits[..2]) == 2 * Unit(bits[0]) + Unit(bits[1]);
      assert Number(bits[..3]) == 2 * Number(bits[..2]) + Unit(bits[2]);
    }
    assert Number(bits[..6]) == 4 * Number(bits[..4]) + 2 * Unit(bits[4]) + Unit(bits[5]);
    assert Number(bits[..7]) == 2 * Number(bits[..6]) + Unit(bits[6]);
  }

  /** The value of a byte as the sum of its bits. */
  lemma ValueIsSum(b: bv8)
    ensures ValueOf(b)
         == 128 * Unit(b & 0x80 != 0) + 64 * Unit(b & 0x40 != 0) + 32 * Unit(b & 0x20 != 0) + 16 * Unit(b & 0x10 != 0)
            + 8 * Unit(b & 0x08 != 0) + 4 * Unit(b & 0x04 != 0) + 2 * Unit(b & 0x02 != 0) + Unit(b & 0x01 != 0)
  {
    hide Number;
    NumberOfEight(ByteBits(b));
  }

  lemma KnownValues()
    ensures ValueOf(0x3B) == 0x3B && ValueOf(0x3F) == 0x3F && ValueOf(0x00) == 0
    ensures ValueOf(0x01) == 1 && ValueOf(0x02) == 2 && ValueOf(0x03) == 3
  {
    hide ValueOf;
    ValueIsSum(0x3B);
    ValueIsSum(0x3F);
    ValueIsSum(0x00);
    ValueIsSum(0x01);
    ValueIsSum(0x02);
    ValueIsSum(0x03);
  }

  lemma KnownBytes()
    ensures ByteOf(0) == 0x00 && ByteOf(1) == 0x01 && ByteOf(2) == 0x02 && ByteOf(3) == 0x03
    ensures LowByte(0x3B3F02 / 0x1_0000) == 0x3B && LowByte(0x3B3F02 / 0x100) == 0x3F && LowByte(0x3B3F02) == 0x02
  {
    hide ByteOf, ValueOf;
    KnownValues();
    ByteOfValue(0, 0x00);
    ByteOfValue(1, 0x01);
    ByteOfValue(2, 0x02);
    ByteOfValue(3, 0x03);
    ByteOfValue(0x3B, 0x3B);
    ByteOfValue(0x3F, 0x3F);
  }

  /** One observed command/Err pair per command determines the constants of the known remote. */
  lemma KnownConstants()
    ensures DeriveCdCandidates(Sample(0x01, 0x76)) == [CombineCd(5, 7)] && DeriveCdCandidates(Sample(0x16, 0xEF)) == [CombineCd(1, 8)]
  {
    hide CandidatesBelow, DeriveCdCandidates;
    BruteForceIsClosedForm(Sample(0x01, 0x76));
    BruteForceIsClosedForm(Sample(0x16, 0xEF));
  }

  /** The commands of a state that uses most positions. */
  lemma KnownCommands()
    ensures BuildCmd1(State(true, 1, 2, 3, true, false, false, false)) == 0x31
    ensures BuildCmd2(State(true, 1, 2, 3, true, false, false, false)) == 0xA1
  {
    hide ByteOf;
    KnownBytes();
  }

  /** The low state of the known remote: its seven canonical bytes. */
  lemma KnownFrame()
    ensures var frame := EncodeState(State(true, 1, 0, 0, false, false, false, false), REMOTE, false);
            frame.Ok? && frame.value.AsBytes() == [0x3B, 0x3F, 0x02, 0x01, 0x76, 0x01, 0x39]
  {
    hide ByteOf, ValueOf, LowByte;
    KnownBytes();
    LowByteOfByte(0x01);
    LowByteOfByte(0x76);
    LowByteOfByte(0x39);
    assert BuildErrByte(0x01, 5, 7) == 0x76 && BuildErrByte(0x01, 1, 8) == 0x39;
  }

  /** A ten-word frame of another remote passes its integrity check. */
  lemma KnownTenWordFrame()
    ensures IntegrityMatches([0x08, 0xE9, 0x05, 0x81, 0x06, 0x15, 0xF5, 0x00, 0x13, 0x77])
  {
    assert Lane([0x06, 0xF5]) == T(Xor(T(0x06), 0xF5)) by { LaneOfPair(0x06, 0xF5); }
    assert Lane([0x81, 0x15, 0x00]) == T(Xor(T(Xor(T(0x81), 0x15)), 0x00)) by { LaneOfTriple(0x81, 0x15, 0x00); }
  }

  function Bits(text: string): (bits: seq<bool>)
    ensures |bits| == |text| && forall i :: 0 <= i < |text| ==> bits[i] == (text[i] == '1')
  {
    seq(|text|, i requires 0 <= i < |text| => text[i] == '1')
  }

  function OneOf(s: Symbol): nat { if s == B1 then 1 else 0 }

  lemma OnesOfNine(d: seq<Symbol>)
    requires |d| == 9
    ensures Ones(d)
         == OneOf(d[0]) + OneOf(d[1]) + OneOf(d[2]) + OneOf(d[3]) + OneOf(d[4])
            + OneOf(d[5]) + OneOf(d[6]) + OneOf(d[7]) + OneOf(d[8])
  {
    assert d[..9] == d && Ones(d[..0]) == 0;
    forall n | 0 < n <= 9 ensures Ones(d[..n]) == Ones(d[..n - 1]) + OneOf(d[n - 1]) { assert d[..n][..n - 1] == d[..n - 1]; }
    assert Ones(d[..3]) == OneOf(d[0]) + OneOf(d[1]) + OneOf(d[2]) by { assert Ones(d[..1]) == OneOf(d[0]); }
    assert Ones(d[..6]) == Ones(d[..3]) + OneOf(d[3]) + OneOf(d[4]) + OneOf(d[5]) by { assert Ones(d[..4]) == Ones(d[..3]) + OneOf(d[3]); }
    assert Ones(d[..8]) == Ones(d[..6]) + OneOf(d[6]) + OneOf(d[7]);
  }

  /** A word on the air: sync, start guard, then every data, trailing, parity and guard bit followed by its complement. */
  lemma WordLayout(w: bv8, trailing: bool)
    ensures var bits := WordBits(w, trailing);
            && bits[..4] == [true, true, true, false] && bits[20] == trailing && bits[24]
            && (forall i :: 0 <= i < 8 ==> bits[4 + 2 * i] == ByteBits(w)[i])
            && (forall i :: 2 <= i < 13 ==> bits[2 * i + 1] == !bits[2 * i])
            && bits[22] == (Ones(WordData(w, trailing)) % 2 == 1)
  {
    hide ByteBits, Ones;
    var symbols, bits := WordSymbols(w, trailing), WordBits(w, trailing);
    forall i | 0 <= i < 13 ensures bits[2 * i] == First(symbols[i]) && bits[2 * i + 1] == Second(symbols[i]) { ToBitsAt(symbols, i); }
    forall i | 0 <= i < 8 ensures bits[4 + 2 * i] == ByteBits(w)[i] { assert bits[2 * (i + 2)] == First(symbols[i + 2]); }
    assert bits[2 * 0 + 1] && bits[2 * 1] && !bits[2 * 1 + 1] && bits[2 * 10] == trailing && bits[2 * 12];
    assert bits[2 * 11] == First(symbols[11]);
  }

  lemma WordIs(w: bv8, trailing: bool, expected: seq<bool>)
    requires |expected| == 26 && expected[..4] == [true, true, true, false] && expected[20] == trailing && expected[24]
    requires forall i :: 0 <= i < 8 ==> expected[4 + 2 * i] == ByteBits(w)[i]
    requires forall i :: 2 <= i < 13 ==> expected[2 * i + 1] == !expected[2 * i]
    requires expected[22] == (Ones(WordData(w, trailing)) % 2 == 1)
    ensures WordBits(w, trailing) == expected
  {
    hide ByteBits, Ones, WordBits;
    WordLayout(w, trailing);
    var bits := WordBits(w, trailing);
    forall i | 0 <= i < 4 ensures bits[i] == expected[i] { assert bits[..4][i] == expected[..4][i]; }
    forall i | 2 <= i < 13 ensures bits[2 * i] == expected[2 * i] && bits[2 * i + 1] == expected[2 * i + 1] {
      if i < 10 {
        var j := i - 2;
        assert bits[4 + 2 * j] == ByteBits(w)[j] == expected[4 + 2 * j];
      }
    }
    forall k | 0 <= k < 26 ensures bits[k] == expected[k] { assert k == 2 * (k / 2) || k == 2 * (k / 2) + 1; }
  }

  lemma KnownFirstWord()
    ensures WordBits(0x3B, true) == Bits("11100101101010011010100110")
  {
    hide WordBits, Ones;
    OnesOfNine(WordData(0x3B, true));
    WordIs(0x3B, true, Bits("11100101101010011010100110"));
  }

  lemma KnownNextWord()
    ensures WordBits(0x3F, false) == Bits("11100101101010101010010110")
  {
    hide WordBits, Ones;
    OnesOfNine(WordData(0x3F, false));
    WordIs(0x3F, false, Bits("11100101101010101010010110"));
  }
}
