/**
  The air format of custom_components/proflame2/rf/waveform.py: on-air words become
  thirteen Manchester symbols each, symbols become bit pairs, bits become bytes.
 */
module Waveform {
  import opened Wrappers
  import opened Bytes
  import opened Packet

  // ----- Symbols, bits and bytes -----

  /** `S` is the sync symbol, `B0`/`B1` are the data symbols, `Z` is silence. */
  datatype Symbol = S | B0 | B1 | Z

  const SYMBOLS_PER_WORD := 13
  const WORD_BITS := 26
  const TRAILING_ZERO_SYMBOLS := 9

  function First(s: Symbol): bool { s == S || s == B1 }

  function Second(s: Symbol): bool { s == S || s == B0 }

  /** BITS_TO_SYMBOL: the table covers all four pairs. */
  function PairSymbol(a: bool, b: bool): (s: Symbol)
    ensures First(s) == a && Second(s) == b
  {
    if a then (if b then S else B1) else (if b then B0 else Z)
  }

  function DataSymbol(bit: bool): Symbol { if bit then B1 else B0 }

  function SymbolBits(s: Symbol): (bits: seq<bool>)
    ensures |bits| == 2
  {
    [First(s), Second(s)]
  }

  /** SYMBOL_TO_BITS applied along a string. */
  function ToBits(symbols: seq<Symbol>): (bits: seq<bool>)
    ensures |bits| == 2 * |symbols|
  {
    if symbols == [] then []
    else ToBits(symbols[..|symbols| - 1]) + SymbolBits(symbols[|symbols| - 1])
  }

  lemma {:induction false} ToBitsAt(symbols: seq<Symbol>, i: nat)
    requires i < |symbols|
    ensures ToBits(symbols)[2 * i] == First(symbols[i])
    ensures ToBits(symbols)[2 * i + 1] == Second(symbols[i])
  {
    if i < |symbols| - 1 {
      ToBitsAt(symbols[..|symbols| - 1], i);
    }
  }

  lemma {:induction false} ToBitsConcat(a: seq<Symbol>, b: seq<Symbol>)
    ensures ToBits(a + b) == ToBits(a) + ToBits(b)
  {
    if b == [] {
      assert a + b == a;
    } else {
      var n := |b| - 1;
      var all := a + b;
      assert all[..|all| - 1] == a + b[..n] && all[|all| - 1] == b[n];
      calc {
        ToBits(all);
        ToBits(a + b[..n]) + SymbolBits(b[n]);
        { ToBitsConcat(a, b[..n]); }
        ToBits(a) + ToBits(b[..n]) + SymbolBits(b[n]);
        { Associative(ToBits(a), ToBits(b[..n]), SymbolBits(b[n])); }
        ToBits(a) + ToBits(b);
      }
    }
  }

  lemma Associative<T>(a: seq<T>, b: seq<T>, c: seq<T>)
    ensures a + b + c == a + (b + c)
  {}

  /** Reads `count` symbols from the pairs that start at bit `offset`. */
  function SymbolsAt(bits: seq<bool>, offset: nat, count: nat): (symbols: seq<Symbol>)
    requires offset + 2 * count <= |bits|
    ensures |symbols| == count
    ensures forall i :: 0 <= i < count ==> symbols[i] == PairSymbol(bits[offset + 2 * i], bits[offset + 2 * i + 1])
  {
    seq(count, i requires 0 <= i < count => PairSymbol(bits[offset + 2 * i], bits[offset + 2 * i + 1]))
  }

  // ----- Words and frames as symbols -----

  /** The nine data symbols of a word: its eight bits and the trailing bit. */
  function WordData(w: bv8, trailing: bool): (data: seq<Symbol>)
    ensures |data| == 9
  {
    seq(8, i requires 0 <= i < 8 => DataSymbol(ByteBits(w)[i])) + [DataSymbol(trailing)]
  }

  /** `data.count("1")` */
  function Ones(data: seq<Symbol>): nat {
    if data == [] then 0 else Ones(data[..|data| - 1]) + if data[|data| - 1] == B1 then 1 else 0
  }

  function ParitySymbol(data: seq<Symbol>): Symbol { DataSymbol(Ones(data) % 2 == 1) }

  /** Sync, start guard, nine data symbols, parity, end guard. */
  function WordSymbols(w: bv8, trailing: bool): (symbols: seq<Symbol>)
    ensures |symbols| == SYMBOLS_PER_WORD
  {
    [S, B1] + WordData(w, trailing) + [ParitySymbol(WordData(w, trailing)), B1]
  }

  /** Only the first word of a frame carries trailing bit 1. */
  function WordsSymbols(words: seq<bv8>): (symbols: seq<Symbol>)
    ensures |symbols| == SYMBOLS_PER_WORD * |words|
  {
    if words == [] then []
    else
      var n := |words| - 1;
      WordsSymbols(words[..n]) + WordSymbols(words[n], n == 0)
  }

  function Silence(n: nat): (symbols: seq<Symbol>)
    ensures |symbols| == n && forall i :: 0 <= i < n ==> symbols[i] == Z
  {
    seq(n, _ => Z)
  }

  function FrameSymbols(frame: Frame): seq<Symbol> {
    WordsSymbols(frame.WireWords()) + Silence(TRAILING_ZERO_SYMBOLS)
  }

  lemma AppendWord(symbols: seq<Symbol>, w: bv8, trailing: bool)
    ensures symbols + [S, B1] + WordData(w, trailing) + [ParitySymbol(WordData(w, trailing)), B1] == symbols + WordSymbols(w, trailing)
  {
    hide WordData, ParitySymbol;
    var data, tail := WordData(w, trailing), [ParitySymbol(WordData(w, trailing)), B1];
    assert WordSymbols(w, trailing) == [S, B1] + data + tail;
    Associative(symbols, [S, B1], data);
    Associative(symbols, [S, B1] + data, tail);
  }

  lemma NoWordsNoSymbols()
    ensures WordsSymbols([]) == []
  {}

  lemma OneMoreWord(words: seq<bv8>, index: nat)
    requires index < |words|
    ensures WordsSymbols(words[..index + 1]) == WordsSymbols(words[..index]) + WordSymbols(words[index], index == 0)
  {
    hide WordSymbols;
    assert words[..index + 1][..index] == words[..index];
  }

  /** frame_to_symbol_string */
  method FrameToSymbolString(frame: Frame) returns (symbols: seq<Symbol>)
    ensures symbols == FrameSymbols(frame)
  {
    hide WordData, ParitySymbol, WordSymbols, WordsSymbols, Frame.WireWords;
    var words := frame.WireWords();
    symbols := [];
    NoWordsNoSymbols();
    for index := 0 to |words|
      invariant symbols == WordsSymbols(words[..index])
    {
      AppendWord(symbols, words[index], index == 0);
      OneMoreWord(words, index);
      var word := WordData(words[index], index == 0);
      symbols := symbols + [S, B1] + word + [ParitySymbol(word), B1];
    }
    assert words[..|words|] == words;
    symbols := symbols + Silence(TRAILING_ZERO_SYMBOLS);
  }

  /** Word k occupies symbols 13k .. 13k+13. */
  lemma {:induction false} WordsSymbolsAt(words: seq<bv8>, k: nat)
    requires k < |words|
    ensures WordsSymbols(words)[SYMBOLS_PER_WORD * k..SYMBOLS_PER_WORD * k + SYMBOLS_PER_WORD] == WordSymbols(words[k], k == 0)
  {
    hide WordSymbols;
    var n := |words| - 1;
    var init, last := WordsSymbols(words[..n]), WordSymbols(words[n], n == 0);
    var from, to := SYMBOLS_PER_WORD * k, SYMBOLS_PER_WORD * k + SYMBOLS_PER_WORD;
    if k < n {
      WordsSymbolsAt(words[..n], k);
      assert words[..n][k] == words[k];
      assert (init + last)[from..to] == init[from..to];
    } else {
      assert k == n && |init| == from && |last| == to - from;
      assert (init + last)[from..to] == last;
    }
  }

  /** Encoding a prefix of the words gives a prefix of the symbols. */
  lemma {:induction false} WordsSymbolsPrefix(words: seq<bv8>, k: nat)
    requires k <= |words|
    ensures WordsSymbols(words)[..SYMBOLS_PER_WORD * k] == WordsSymbols(words[..k])
  {
    hide WordSymbols;
    if k == |words| {
      assert words[..k] == words;
    } else {
      var n := |words| - 1;
      WordsSymbolsPrefix(words[..n], k);
      assert words[..n][..k] == words[..k];
    }
  }

  // ----- Reading one word back -----

  function DataByte(data: seq<Symbol>): bv8
    requires |data| >= 8
  {
    BitsByte(seq(8, i requires 0 <= i < 8 => data[i] == B1))
  }

  /** The checks both scanners make on one thirteen-symbol chunk. */
  predicate IsWord(chunk: seq<Symbol>, trailing: bool)
    requires |chunk| == SYMBOLS_PER_WORD
  {
    && chunk[0] == S && chunk[1] == B1 && chunk[12] == B1
    && (forall i :: 2 <= i < 11 ==> chunk[i] == B0 || chunk[i] == B1)
    && chunk[11] == ParitySymbol(chunk[2..11])
    && chunk[10] == DataSymbol(trailing)
  }

  lemma WordDataByte(w: bv8, trailing: bool)
    ensures DataByte(WordData(w, trailing)) == w
  {
    assert seq(8, i requires 0 <= i < 8 => WordData(w, trailing)[i] == B1) == ByteBits(w);
    ByteBitsRoundTrip(w);
  }

  lemma DataByteWord(data: seq<Symbol>, trailing: bool)
    requires |data| == 9 && forall i :: 0 <= i < 9 ==> data[i] == B0 || data[i] == B1
    requires data[8] == DataSymbol(trailing)
    ensures WordData(DataByte(data), trailing) == data
  {
    BitsByteRoundTrip(seq(8, i requires 0 <= i < 8 => data[i] == B1));
  }

  lemma DataByteOfPrefix(a: seq<Symbol>, b: seq<Symbol>)
    requires |a| >= 8 && |b| >= 8 && a[..8] == b[..8]
    ensures DataByte(a) == DataByte(b)
  {
    hide BitsByte;
    forall i | 0 <= i < 8 ensures a[i] == b[i] { assert a[..8][i] == b[..8][i]; }
    assert seq(8, i requires 0 <= i < 8 => a[i] == B1) == seq(8, i requires 0 <= i < 8 => b[i] == B1);
  }

  /** A chunk passes the checks exactly when it is the encoding of a word, and that word is read off its data. */
  lemma WordParse(chunk: seq<Symbol>, trailing: bool)
    requires |chunk| == SYMBOLS_PER_WORD
    ensures IsWord(chunk, trailing) <==> chunk == WordSymbols(DataByte(chunk[2..10]), trailing)
    ensures forall w {:trigger WordSymbols(w, trailing)} ::
              chunk == WordSymbols(w, trailing) ==> IsWord(chunk, trailing) && DataByte(chunk[2..10]) == w
  {
    hide ByteBits, BitsByte, DataByte, Ones;
    var data := chunk[2..11];
    DataByteOfPrefix(data, chunk[2..10]);
    if IsWord(chunk, trailing) {
      DataByteWord(data, trailing);
      assert chunk == [chunk[0], chunk[1]] + data + [chunk[11], chunk[12]];
    }
    forall w | chunk == WordSymbols(w, trailing) ensures IsWord(chunk, trailing) && DataByte(chunk[2..10]) == w {
      assert data == WordData(w, trailing);
      WordDataByte(w, trailing);
    }
  }

  // ----- Bytes on the air -----

  function Zeros(n: nat): (bits: seq<bool>)
    ensures |bits| == n && forall i :: 0 <= i < n ==> !bits[i]
  {
    seq(n, _ => false)
  }

  function BytesToBits(payload: seq<bv8>): (bits: seq<bool>)
    ensures |bits| == 8 * |payload|
  {
    if payload == [] then []
    else BytesToBits(payload[..|payload| - 1]) + ByteBits(payload[|payload| - 1])
  }

  /** `int(chunk, 2)`: a chunk shorter than eight bits is right-aligned in its byte. */
  function ChunkByte(chunk: seq<bool>): bv8
    requires |chunk| <= 8
  {
    BitsByte(Zeros(8 - |chunk|) + chunk)
  }

  /** Where the last chunk of a non-empty bit string starts. */
  function LastChunk(bits: seq<bool>): (start: nat)
    requires bits != []
    ensures start < |bits| <= start + 8 && start % 8 == 0
  {
    (|bits| - 1) / 8 * 8
  }

  function BitsToBytes(bits: seq<bool>): (payload: seq<bv8>)
    ensures |payload| == (|bits| + 7) / 8
  {
    if bits == [] then []
    else BitsToBytes(bits[..LastChunk(bits)]) + [ChunkByte(bits[LastChunk(bits)..])]
  }

  function SymbolsToAirBytes(symbols: seq<Symbol>): seq<bv8> { BitsToBytes(ToBits(symbols)) }

  /** air_bytes_to_symbols: every pair is in the table and a byte string has an even number of bits, so nothing raises. */
  method AirBytesToSymbols(payload: seq<bv8>) returns (symbols: seq<Symbol>)
    ensures symbols == SymbolsAt(BytesToBits(payload), 0, 4 * |payload|)
  {
    var bits := BytesToBits(payload);
    symbols := [];
    var index := 0;
    while index < |bits|
      invariant index == 2 * |symbols| <= |bits|
      invariant symbols == SymbolsAt(bits, 0, |symbols|)
    {
      symbols := symbols + [PairSymbol(bits[index], bits[index + 1])];
      index := index + 2;
    }
  }

  /** The bits that come back from bytes: a final partial byte gains its leading zeros. */
  function ByteAligned(bits: seq<bool>): seq<bool> {
    var whole := |bits| / 8 * 8;
    bits[..whole] + Zeros((8 - |bits| % 8) % 8) + bits[whole..]
  }

  lemma AlignedWhole(bits: seq<bool>)
    requires |bits| % 8 == 0
    ensures ByteAligned(bits) == bits
  {}

  lemma AlignedLast(bits: seq<bool>)
    requires bits != []
    ensures ByteAligned(bits) == bits[..LastChunk(bits)] + (Zeros(8 - |bits[LastChunk(bits)..]|) + bits[LastChunk(bits)..])
  {
    hide Zeros;
    var start := LastChunk(bits);
    if |bits| % 8 == 0 {
      AlignedWhole(bits);
    } else {
      assert |bits| / 8 * 8 == start;
    }
  }

  /** Bits to bytes to bits inserts the leading zeros of a partial last byte and changes nothing else. */
  lemma {:induction false} BitsSurviveBytes(bits: seq<bool>)
    ensures BytesToBits(BitsToBytes(bits)) == ByteAligned(bits)
  {
    hide ByteBits, BitsByte, ByteAligned;
    if bits != [] {
      var start := LastChunk(bits);
      var init, chunk := bits[..start], bits[start..];
      var padded := Zeros(8 - |chunk|) + chunk;
      calc {
        BytesToBits(BitsToBytes(bits));
        { assert BitsToBytes(bits)[..|BitsToBytes(init)|] == BitsToBytes(init); }
        BytesToBits(BitsToBytes(init)) + ByteBits(ChunkByte(chunk));
        { BitsSurviveBytes(init); AlignedWhole(init); BitsByteRoundTrip(padded); }
        init + padded;
        { AlignedLast(bits); }
        ByteAligned(bits);
      }
    } else {
      AlignedWhole(bits);
    }
  }

  lemma {:induction false} BytesSurviveBits(payload: seq<bv8>)
    ensures BitsToBytes(BytesToBits(payload)) == payload
  {
    hide ByteBits, BitsByte;
    if payload != [] {
      var n := |payload| - 1;
      BytesSurviveBits(payload[..n]);
      ByteBitsRoundTrip(payload[n]);
      var bits := BytesToBits(payload);
      assert LastChunk(bits) == 8 * n;
      assert bits[..8 * n] == BytesToBits(payload[..n]);
      assert Zeros(0) + bits[8 * n..] == ByteBits(payload[n]);
    }
  }

  lemma {:induction false} BytesConcat(a: seq<bv8>, b: seq<bv8>)
    ensures BytesToBits(a + b) == BytesToBits(a) + BytesToBits(b)
  {
    hide ByteBits;
    if b == [] {
      assert a + b == a;
    } else {
      var n := |b| - 1;
      BytesConcat(a, b[..n]);
      assert (a + b)[..|a| + n] == a + b[..n];
    }
  }

  lemma BytesMiddle(head: seq<bv8>, middle: seq<bv8>, tail: seq<bv8>)
    ensures BytesToBits(head + (middle + tail))[8 * |head|..8 * (|head| + |middle|)] == BytesToBits(middle)
  {
    hide BytesToBits;
    BytesConcat(head, middle + tail);
    BytesConcat(middle, tail);
    MiddlePart(BytesToBits(head), BytesToBits(middle), BytesToBits(tail));
  }

  lemma ThreeParts<X>(s: seq<X>, start: nat, end: nat)
    requires start <= end <= |s|
    ensures s == s[..start] + (s[start..end] + s[end..])
  {}

  /** Cutting whole bytes out of a payload cuts their bits out of its bits. */
  lemma BytesSlice(payload: seq<bv8>, start: nat, end: nat)
    requires start <= end <= |payload|
    ensures BytesToBits(payload[start..end]) == BytesToBits(payload)[8 * start..8 * end]
  {
    hide BytesToBits;
    ThreeParts(payload, start, end);
    BytesMiddle(payload[..start], payload[start..end], payload[end..]);
  }

  lemma MiddlePart<X>(a: seq<X>, b: seq<X>, c: seq<X>)
    ensures (a + (b + c))[|a|..|a| + |b|] == b
  {}

  lemma SymbolsSurviveBits(symbols: seq<Symbol>)
    ensures SymbolsAt(ToBits(symbols), 0, |symbols|) == symbols
  {
    forall i | 0 <= i < |symbols| ensures SymbolsAt(ToBits(symbols), 0, |symbols|)[i] == symbols[i] {
      ToBitsAt(symbols, i);
    }
  }

  lemma {:induction false} SilenceBits(n: nat)
    ensures ToBits(Silence(n)) == Zeros(2 * n)
  {
    if n > 0 {
      assert Silence(n)[..n - 1] == Silence(n - 1);
      SilenceBits(n - 1);
    }
  }

  /** Where silence has to be inserted when a symbol string does not fill whole bytes. */
  function SymbolAligned(symbols: seq<Symbol>): seq<Symbol> {
    var whole := |symbols| / 4 * 4;
    symbols[..whole] + Silence((4 - |symbols| % 4) % 4) + symbols[whole..]
  }

  lemma AlignedBits(symbols: seq<Symbol>)
    ensures ByteAligned(ToBits(symbols)) == ToBits(SymbolAligned(symbols))
  {
    var whole, gap := |symbols| / 4 * 4, (4 - |symbols| % 4) % 4;
    var head, tail := symbols[..whole], symbols[whole..];
    var bits := ToBits(symbols);
    assert bits == ToBits(head) + ToBits(tail) by {
      assert symbols == head + tail;
      ToBitsConcat(head, tail);
    }
    calc {
      ToBits(SymbolAligned(symbols));
      { ToBitsConcat(head + Silence(gap), tail); }
      ToBits(head + Silence(gap)) + ToBits(tail);
      { ToBitsConcat(head, Silence(gap)); SilenceBits(gap); }
      ToBits(head) + Zeros(2 * gap) + ToBits(tail);
      { AlignedParts(ToBits(head), ToBits(tail), 2 * gap); }
      ByteAligned(bits);
    }
  }

  lemma AlignedParts(head: seq<bool>, tail: seq<bool>, gap: nat)
    requires |head| % 8 == 0 && |tail| < 8 && gap == (8 - |tail|) % 8
    ensures ByteAligned(head + tail) == head + Zeros(gap) + tail
  {
    hide Zeros;
    var bits := head + tail;
    WholeBytes(|head|, |tail|);
    assert bits[..|head|] == head && bits[|head|..] == tail;
  }

  lemma WholeBytes(head: nat, tail: nat)
    requires head % 8 == 0 && tail < 8
    ensures (head + tail) / 8 * 8 == head && (head + tail) % 8 == tail
  {}

  lemma SymbolsWhole(symbols: seq<Symbol>)
    ensures SymbolAligned(symbols) == symbols <==> |symbols| % 4 == 0
  {
    var whole := |symbols| / 4 * 4;
    if |symbols| % 4 == 0 {
      assert whole == |symbols| && Silence(0) == [];
    } else {
      assert |SymbolAligned(symbols)| == whole + 4;
    }
  }

  /** Symbols to bytes to symbols: exact on whole bytes, otherwise silence appears before the last partial byte. */
  lemma SymbolsSurviveBytes(symbols: seq<Symbol>)
    ensures var payload := SymbolsToAirBytes(symbols);
            SymbolsAt(BytesToBits(payload), 0, 4 * |payload|) == SymbolAligned(symbols)
    ensures SymbolAligned(symbols) == symbols <==> |symbols| % 4 == 0
  {
    SymbolsWhole(symbols);
    var aligned := SymbolAligned(symbols);
    var payload := SymbolsToAirBytes(symbols);
    assert BytesToBits(payload) == ToBits(aligned) by {
      BitsSurviveBytes(ToBits(symbols));
      AlignedBits(symbols);
    }
    assert 4 * |payload| == |aligned|;
    SymbolsSurviveBits(aligned);
  }

  // ----- Transmission plan and repeated payload -----

  const DEFAULT_REPEATS := 5
  const NATIVE_REPEAT_SEPARATOR_BITS := 12

  datatype Plan = Plan(frame: Frame, symbols: seq<Symbol>, airPayload: seq<bv8>, airPayloadBitLength: nat, repeatCount: int)

  /** `rstrip("Z")` */
  function StripSilence(symbols: seq<Symbol>): (stripped: seq<Symbol>)
    ensures stripped <= symbols
  {
    if symbols != [] && symbols[|symbols| - 1] == Z then StripSilence(symbols[..|symbols| - 1]) else symbols
  }

  function BuildTransmissionPlan(frame: Frame): (plan: Plan)
    ensures plan.repeatCount == 5
  {
    var symbols := FrameSymbols(frame);
    Plan(frame, symbols, SymbolsToAirBytes(symbols), 2 * |StripSilence(symbols)|, DEFAULT_REPEATS)
  }

  /** Zeros that fill the last byte. */
  function Padded(bits: seq<bool>): seq<bool> { bits + Zeros((8 - |bits| % 8) % 8) }

  /** `separator.join(frame_bits for _ in range(n))` */
  function Joined(frameBits: seq<bool>, n: nat, separator: nat): (bits: seq<bool>)
    ensures n > 0 ==> |bits| == n * |frameBits| + (n - 1) * separator
  {
    if n == 0 then []
    else if n == 1 then frameBits
    else Joined(frameBits, n - 1, separator) + Zeros(separator) + frameBits
  }

  /** build_repeated_air_payload: the payload bytes and the bit length before padding. */
  function BuildRepeatedAirPayload(plan: Plan, repeatCount: Option<int>, separatorBits: int): Result<(seq<bv8>, int), string> {
    var n := if repeatCount.Some? then repeatCount.value else plan.repeatCount;
    var source := BytesToBits(plan.airPayload);
    if n <= 0 then Err("repeat_count must be greater than zero.")
    else if separatorBits < 0 then Err("separator_bits must be non-negative.")
    else if |source| < plan.airPayloadBitLength then Err("air payload does not contain the declared bit length.")
    else
      var repeated := Joined(source[..plan.airPayloadBitLength], n, separatorBits);
      Ok((BitsToBytes(Padded(repeated)), |repeated|))
  }

  /** The bits of a frame before its closing silence. */
  function FrameBits(words: seq<bv8>): (bits: seq<bool>)
    ensures |bits| == WORD_BITS * |words|
  {
    ToBits(WordsSymbols(words))
  }

  lemma {:induction false} StripSilenceOf(symbols: seq<Symbol>, n: nat)
    requires symbols != [] && symbols[|symbols| - 1] != Z
    ensures StripSilence(symbols + Silence(n)) == symbols
    decreases n
  {
    if n == 0 {
      assert symbols + Silence(0) == symbols;
    } else {
      assert (symbols + Silence(n))[..|symbols| + n - 1] == symbols + Silence(n - 1);
      StripSilenceOf(symbols, n - 1);
    }
  }

  lemma LastWordSymbol(words: seq<bv8>)
    requires words != []
    ensures WordsSymbols(words)[SYMBOLS_PER_WORD * |words| - 1] == B1
  {
    hide WordsSymbols;
    var n := |words| - 1;
    var word := WordSymbols(words[n], n == 0);
    assert word[12] == B1;
    WordsSymbolsAt(words, n);
    assert WordsSymbols(words)[SYMBOLS_PER_WORD * n..SYMBOLS_PER_WORD * n + SYMBOLS_PER_WORD][12] == B1;
  }

  lemma AlignedPrefix(bits: seq<bool>, n: nat)
    requires n <= |bits| / 8 * 8
    ensures n <= |ByteAligned(bits)| && ByteAligned(bits)[..n] == bits[..n]
  {}

  /** The plan declares exactly the bits of the words, and its bytes start with exactly those bits. */
  lemma PlanCarriesFrameBits(frame: Frame)
    requires frame.WellFormed()
    ensures var plan := BuildTransmissionPlan(frame);
            && plan.airPayloadBitLength == WORD_BITS * (7 + |frame.extension|)
            && plan.airPayloadBitLength <= |BytesToBits(plan.airPayload)|
            && BytesToBits(plan.airPayload)[..plan.airPayloadBitLength] == FrameBits(frame.WireWords())
  {
    var words := frame.WireWords();
    var symbols := FrameSymbols(frame);
    LastWordSymbol(words);
    StripSilenceOf(WordsSymbols(words), TRAILING_ZERO_SYMBOLS);
    var bits := ToBits(symbols);
    BitsSurviveBytes(bits);
    ToBitsConcat(WordsSymbols(words), Silence(TRAILING_ZERO_SYMBOLS));
    assert |bits| == WORD_BITS * |words| + 18 && |bits| / 8 * 8 > |bits| - 8;
    AlignedPrefix(bits, WORD_BITS * |words|);
  }

  lemma PaddedSurvivesBytes(bits: seq<bool>)
    ensures BytesToBits(BitsToBytes(Padded(bits))) == Padded(bits)
  {
    assert |Padded(bits)| % 8 == 0;
    BitsSurviveBytes(Padded(bits));
    AlignedWhole(Padded(bits));
  }

  /** For any plan: when the repeated payload exists, what is wrong when it does not, and its bits. */
  lemma RepeatedPayloadOf(plan: Plan, repeatCount: Option<int>, separatorBits: int)
    ensures var n := if repeatCount.Some? then repeatCount.value else plan.repeatCount;
            var source, length := BytesToBits(plan.airPayload), plan.airPayloadBitLength;
            var r := BuildRepeatedAirPayload(plan, repeatCount, separatorBits);
            && (r.Ok? <==> n > 0 && separatorBits >= 0 && length <= |source|)
            && (n <= 0 ==> r == Err("repeat_count must be greater than zero."))
            && (n > 0 && separatorBits < 0 ==> r == Err("separator_bits must be non-negative."))
            && (n > 0 && separatorBits >= 0 && length > |source| ==>
                  r == Err("air payload does not contain the declared bit length."))
            && (r.Ok? ==>
                  var burst := Joined(source[..length], n, separatorBits);
                  && r.value.1 == |burst|
                  && BytesToBits(r.value.0) == Padded(burst))
  {
    hide Joined, Padded, BitsToBytes, BytesToBits;
    var n := if repeatCount.Some? then repeatCount.value else plan.repeatCount;
    var source, length := BytesToBits(plan.airPayload), plan.airPayloadBitLength;
    if n > 0 && separatorBits >= 0 && length <= |source| {
      PaddedSurvivesBytes(Joined(source[..length], n, separatorBits));
    }
  }

  /** The repeated payload is the burst of frame bits and separators, closed with fewer than eight zero bits. */
  lemma RepeatedPayloadBits(frame: Frame, repeatCount: Option<int>, separatorBits: int)
    requires frame.WellFormed()
    ensures var plan := BuildTransmissionPlan(frame);
            var n := if repeatCount.Some? then repeatCount.value else 5;
            var r := BuildRepeatedAirPayload(plan, repeatCount, separatorBits);
            && (r.Ok? <==> n > 0 && separatorBits >= 0)
            && (r.Ok? ==>
                  var burst := Joined(FrameBits(frame.WireWords()), n, separatorBits);
                  && r.value.1 == |burst|
                  && BytesToBits(r.value.0) == Padded(burst))
  {
    hide BuildTransmissionPlan, BuildRepeatedAirPayload, FrameBits, Frame.WireWords, Joined, Padded, BitsToBytes, BytesToBits;
    PlanCarriesFrameBits(frame);
    RepeatedPayloadOf(BuildTransmissionPlan(frame), repeatCount, separatorBits);
  }
}
