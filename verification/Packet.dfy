/**
  The logical frame of custom_components/proflame2/protocol/packet.py.  Python integers
  are unbounded, so the five scalar fields are `int` and every wire byte is masked.
 */
module Packet {
  import opened Wrappers
  import opened Bytes

  datatype Frame = Frame(serialId: int, cmd1: int, err1: int, cmd2: int, err2: int, extension: seq<bv8>)
  {
    /** What the constructor of the frame record enforces. */
    predicate WellFormed() { |extension| == 0 || |extension| == 3 }

    predicate IsExtended() { extension != [] }

    /** The fields fit their wire width, so that masking loses nothing. */
    predicate FitsWire() {
      && 0 <= serialId < 0x100_0000
      && 0 <= cmd1 < 0x100 && 0 <= err1 < 0x100
      && 0 <= cmd2 < 0x100 && 0 <= err2 < 0x100
    }

    /** The on-air words in transmission order: note that both commands precede both Err bytes. */
    function WireWords(): (words: seq<bv8>)
      ensures |words| == 7 + |extension|
    {
      [LowByte(serialId / 0x1_0000), LowByte(serialId / 0x100), LowByte(serialId),
       LowByte(cmd1), LowByte(cmd2), LowByte(err1), LowByte(err2)] + extension
    }

    /** The canonical seven-byte payload: here each Err byte follows its command. */
    function AsBytes(): (payload: seq<bv8>)
      ensures |payload| == 7
    {
      [LowByte(serialId / 0x1_0000), LowByte(serialId / 0x100), LowByte(serialId),
       LowByte(cmd1), LowByte(err1), LowByte(cmd2), LowByte(err2)]
    }
  }

  function Serial(high: bv8, middle: bv8, low: bv8): int {
    ValueOf(high) * 0x1_0000 + ValueOf(middle) * 0x100 + ValueOf(low)
  }

  /** The frame a scanner builds from seven or ten decoded words. */
  function FrameFromWords(words: seq<bv8>): (frame: Frame)
    requires |words| == 7 || |words| == 10
    ensures frame.WellFormed() && frame.FitsWire()
  {
    Frame(Serial(words[0], words[1], words[2]), ValueOf(words[3]), ValueOf(words[5]), ValueOf(words[4]), ValueOf(words[6]),
          words[7..])
  }

  function FromBytes(payload: seq<bv8>): Result<Frame, string> {
    if |payload| != 7 then
      Err("Proflame payloads must be 7 bytes long.")
    else
      Ok(Frame(Serial(payload[0], payload[1], payload[2]), ValueOf(payload[3]), ValueOf(payload[4]),
               ValueOf(payload[5]), ValueOf(payload[6]), []))
  }

  /** The frame with every scalar reduced to its wire width. */
  function Masked(frame: Frame): Frame {
    frame.(serialId := frame.serialId % 0x100_0000, cmd1 := frame.cmd1 % 0x100, err1 := frame.err1 % 0x100,
           cmd2 := frame.cmd2 % 0x100, err2 := frame.err2 % 0x100)
  }

  lemma LowByteOfByte(b: bv8)
    ensures LowByte(ValueOf(b)) == b
  {
    hide LowByte, ValueOf;
    LowByteIs(ValueOf(b), b);
  }

  lemma ByteOfLowByte(value: int)
    ensures ValueOf(LowByte(value)) == value % 0x100
  {
    hide LowByte, ValueOf;
    LowByteIs(value, LowByte(value));
  }

  lemma SplitThreeBytes(n: int)
    ensures n / 0x1_0000 % 0x100 * 0x1_0000 + n / 0x100 % 0x100 * 0x100 + n % 0x100 == n % 0x100_0000
  {
    var q := n / 0x100;
    var p := q / 0x100;
    assert n / 0x1_0000 == p;
    assert n % 0x100_0000 == n - p / 0x100 * 0x100_0000;
  }

  lemma JoinThreeBytes(h: int, m: int, l: int)
    requires 0 <= h < 0x100 && 0 <= m < 0x100 && 0 <= l < 0x100
    ensures var n := h * 0x1_0000 + m * 0x100 + l;
            n / 0x1_0000 % 0x100 == h && n / 0x100 % 0x100 == m && n % 0x100 == l
  {
    var q := h * 0x100 + m;
    JoinByte(h, m);
    JoinByte(q, l);
    assert h * 0x1_0000 + m * 0x100 + l == q * 0x100 + l;
    TwoShifts(q * 0x100 + l);
  }

  lemma JoinByte(high: int, low: int)
    requires 0 <= low < 0x100
    ensures (high * 0x100 + low) / 0x100 == high && (high * 0x100 + low) % 0x100 == low
  {}

  lemma TwoShifts(n: int)
    ensures n / 0x1_0000 == n / 0x100 / 0x100
  {}

  lemma SerialSplit(n: int)
    ensures Serial(LowByte(n / 0x1_0000), LowByte(n / 0x100), LowByte(n)) == n % 0x100_0000
  {
    hide LowByte, ValueOf;
    SplitThreeBytes(n);
    ByteOfLowByte(n / 0x1_0000);
    ByteOfLowByte(n / 0x100);
    ByteOfLowByte(n);
  }

  lemma SerialJoin(high: bv8, middle: bv8, low: bv8)
    ensures var n := Serial(high, middle, low);
            LowByte(n / 0x1_0000) == high && LowByte(n / 0x100) == middle && LowByte(n) == low
  {
    hide LowByte, ValueOf;
    JoinThreeBytes(ValueOf(high), ValueOf(middle), ValueOf(low));
    var n := Serial(high, middle, low);
    LowByteIs(n / 0x1_0000, high);
    LowByteIs(n / 0x100, middle);
    LowByteIs(n, low);
  }

  lemma MaskedFits(frame: Frame)
    ensures Masked(frame) == frame <==> frame.FitsWire()
  {}

  /** Words to frame to words loses nothing. */
  lemma WordsSurviveFrame(words: seq<bv8>)
    requires |words| == 7 || |words| == 10
    ensures FrameFromWords(words).WireWords() == words
  {
    hide LowByte, ValueOf;
    SerialJoin(words[0], words[1], words[2]);
    forall i | 3 <= i < 7 ensures LowByte(ValueOf(words[i])) == words[i] { LowByteOfByte(words[i]); }
  }

  /** Frame to words to frame masks the scalars, so it is the identity exactly on frames that fit. */
  lemma FrameSurvivesWords(frame: Frame)
    requires frame.WellFormed()
    ensures FrameFromWords(frame.WireWords()) == Masked(frame)
    ensures FrameFromWords(frame.WireWords()) == frame <==> frame.FitsWire()
  {
    hide LowByte, ValueOf;
    SerialSplit(frame.serialId);
    ByteOfLowByte(frame.cmd1);
    ByteOfLowByte(frame.err1);
    ByteOfLowByte(frame.cmd2);
    ByteOfLowByte(frame.err2);
    assert frame.WireWords()[7..] == frame.extension;
    MaskedFits(frame);
  }

  /** The byte payload drops the extension words: it round-trips exactly the legacy frames that fit. */
  lemma FrameSurvivesBytes(frame: Frame)
    ensures FromBytes(frame.AsBytes()) == Ok(Masked(frame).(extension := []))
    ensures FromBytes(frame.AsBytes()) == Ok(frame) <==> frame.FitsWire() && !frame.IsExtended()
  {
    hide LowByte, ValueOf;
    var legacy := frame.(extension := []);
    assert FromBytes(frame.AsBytes()) == Ok(Masked(legacy)) by {
      SerialSplit(frame.serialId);
      ByteOfLowByte(frame.cmd1);
      ByteOfLowByte(frame.err1);
      ByteOfLowByte(frame.cmd2);
      ByteOfLowByte(frame.err2);
    }
    MaskedFits(legacy);
  }

  lemma BytesSurviveFrame(payload: seq<bv8>)
    ensures FromBytes(payload).Ok? <==> |payload| == 7
    ensures |payload| == 7 ==> FromBytes(payload).value.AsBytes() == payload
  {
    hide LowByte, ValueOf;
    if |payload| == 7 {
      SerialJoin(payload[0], payload[1], payload[2]);
      forall i | 3 <= i < 7 ensures LowByte(ValueOf(payload[i])) == payload[i] { LowByteOfByte(payload[i]); }
    }
  }
}
