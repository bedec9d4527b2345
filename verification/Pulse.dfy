/**
  The pulse/PCM receive path of custom_components/proflame2/rf/pulse.py: word decoding,
  the scan for seven-word and ten-word frames, and de-duplication.
 */
module Pulse {
  import opened Wrappers
  import opened Waveform

  const STANDARD_WORDS := 7
  const EXTENDED_WORDS := 10
  const STANDARD_GUARD_BITS := 18
  const MIN_REPEAT_GAP_BITS := 10

  // ----- What it means for a bit row to carry words -----

  function WordBits(w: bv8, trailing: bool): (bits: seq<bool>)
    ensures |bits| == WORD_BITS
  {
    ToBits(WordSymbols(w, trailing))
  }

  ghost predicate HasWord(bits: seq<bool>, start: nat, w: bv8, trailing: bool) {
    start + WORD_BITS <= |bits| && bits[start..start + WORD_BITS] == WordBits(w, trailing)
  }

  /** From `offset` on, the row is exactly the transmitter's output for these words. */
  ghost predicate Carries(bits: seq<bool>, offset: nat, words: seq<bv8>) {
    offset + WORD_BITS * |words| <= |bits| && bits[offset..offset + WORD_BITS * |words|] == FrameBits(words)
  }

  /** A row that ends one bit short of `count` words is read as if its final low bit were there. */
  function Completed(bits: seq<bool>, offset: nat, count: nat): seq<bool> {
    if offset + WORD_BITS * count == |bits| + 1 then bits + [false] else bits
  }

  /** The row carries the words, possibly without the final low bit of the last one. */
  ghost predicate Decodes(bits: seq<bool>, offset: nat, words: seq<bv8>) {
    Carries(Completed(bits, offset, |words|), offset, words)
  }

  lemma {:induction false} SymbolsAtBits(bits: seq<bool>, offset: nat, count: nat)
    requires offset + 2 * count <= |bits|
    ensures ToBits(SymbolsAt(bits, offset, count)) == bits[offset..offset + 2 * count]
  {
    hide PairSymbol, First, Second;
    if count > 0 {
      var last := offset + 2 * count - 2;
      SymbolsAtBits(bits, offset, count - 1);
      var symbols := SymbolsAt(bits, offset, count);
      assert symbols[..count - 1] == SymbolsAt(bits, offset, count - 1);
      assert symbols[count - 1] == PairSymbol(bits[last], bits[last + 1]);
      assert SymbolBits(symbols[count - 1]) == [bits[last], bits[last + 1]];
      var pair := bits[last..last + 2];
      assert |pair| == 2 && pair[0] == bits[last] && pair[1] == bits[last + 1];
      assert pair == [pair[0], pair[1]];
      SplitSlice(bits, offset, last, last + 2);
    }
  }

  lemma BitsSymbolsAt(bits: seq<bool>, offset: nat, symbols: seq<Symbol>)
    requires offset + 2 * |symbols| <= |bits|
    ensures bits[offset..offset + 2 * |symbols|] == ToBits(symbols) <==> SymbolsAt(bits, offset, |symbols|) == symbols
  {
    hide ToBits, PairSymbol;
    SymbolsAtBits(bits, offset, |symbols|);
    SymbolsSurviveBits(symbols);
    SymbolsSurviveBits(SymbolsAt(bits, offset, |symbols|));
  }

  lemma FrameBitsAppend(words: seq<bv8>)
    requires words != []
    ensures FrameBits(words) == FrameBits(words[..|words| - 1]) + WordBits(words[|words| - 1], |words| == 1)
  {
    hide WordSymbols, ToBits;
    var n := |words| - 1;
    ToBitsConcat(WordsSymbols(words[..n]), WordSymbols(words[n], n == 0));
  }

  lemma SplitSlice<X>(s: seq<X>, a: nat, b: nat, c: nat)
    requires a <= b <= c <= |s|
    ensures s[a..c] == s[a..b] + s[b..c]
  {}

  lemma SplitSame<X>(a: seq<X>, b: seq<X>, c: seq<X>, d: seq<X>)
    requires |a| == |c| && |b| == |d|
    ensures a + b == c + d <==> a == c && b == d
  {
    assert (a + b)[..|a|] == a && (a + b)[|a|..] == b;
    assert (c + d)[..|c|] == c && (c + d)[|c|..] == d;
  }

  /** Carrying words is carrying each of them in its place; only the first has trailing bit 1. */
  lemma {:induction false} CarriesIff(bits: seq<bool>, offset: nat, words: seq<bv8>)
    ensures Carries(bits, offset, words)
       <==> && offset + WORD_BITS * |words| <= |bits|
            && forall k :: 0 <= k < |words| ==> HasWord(bits, offset + WORD_BITS * k, words[k], k == 0)
  {
    hide FrameBits, WordBits;
    if offset + WORD_BITS * |words| <= |bits| && words != [] {
      var n := |words| - 1;
      var middle := offset + WORD_BITS * n;
      CarriesIff(bits, offset, words[..n]);
      FrameBitsAppend(words);
      SplitSlice(bits, offset, middle, middle + WORD_BITS);
      SplitSame(bits[offset..middle], bits[middle..middle + WORD_BITS], FrameBits(words[..n]), WordBits(words[n], n == 0));
      assert Carries(bits, offset, words) <==> Carries(bits, offset, words[..n]) && HasWord(bits, middle, words[n], n == 0);
    }
  }

  lemma HasWordIff(bits: seq<bool>, start: nat, w: bv8, trailing: bool)
    requires start + WORD_BITS <= |bits|
    ensures var chunk := SymbolsAt(bits, start, SYMBOLS_PER_WORD);
            HasWord(bits, start, w, trailing) <==> IsWord(chunk, trailing) && DataByte(chunk[2..10]) == w
  {
    hide WordSymbols, IsWord, DataByte, ToBits;
    var chunk := SymbolsAt(bits, start, SYMBOLS_PER_WORD);
    BitsSymbolsAt(bits, start, WordSymbols(w, trailing));
    WordParse(chunk, trailing);
  }

  // ----- Decoding a run of words -----

  lemma NotAWord(row: seq<bool>, offset: nat, count: nat, index: nat)
    requires index < count && offset + WORD_BITS * count <= |row|
    requires !IsWord(SymbolsAt(row, offset + WORD_BITS * index, SYMBOLS_PER_WORD), index == 0)
    ensures forall words :: |words| == count ==> !Carries(row, offset, words)
  {
    hide IsWord, DataByte, Carries, HasWord;
    forall words | |words| == count && Carries(row, offset, words) ensures false {
      CarriesIff(row, offset, words);
      HasWordIff(row, offset + WORD_BITS * index, words[index], index == 0);
    }
  }

  lemma WordExtends(row: seq<bool>, offset: nat, words: seq<bv8>)
    requires words != [] && offset + WORD_BITS * |words| <= |row|
    requires Carries(row, offset, words[..|words| - 1])
    requires var chunk := SymbolsAt(row, offset + WORD_BITS * (|words| - 1), SYMBOLS_PER_WORD);
             IsWord(chunk, |words| == 1) && words[|words| - 1] == DataByte(chunk[2..10])
    ensures Carries(row, offset, words)
  {
    hide IsWord, DataByte, Carries, HasWord;
    var n := |words| - 1;
    HasWordIff(row, offset + WORD_BITS * n, words[n], n == 0);
    CarriesIff(row, offset, words);
    CarriesIff(row, offset, words[..n]);
  }

  lemma ChunkOfCompleted(bits: seq<bool>, offset: nat, count: nat, index: nat)
    requires index < count && offset + WORD_BITS * count <= |bits| + 1
    ensures var row := Completed(bits, offset, count);
            var start := offset + WORD_BITS * index;
            var chunk := SymbolsAt(row, start, SYMBOLS_PER_WORD);
            if offset + WORD_BITS * count == |bits| + 1 && index == count - 1 then
              && chunk[..12] == SymbolsAt(bits, start, 12)
              && (chunk[12] == B1 <==> bits[start + 24..] == [true])
            else
              chunk == SymbolsAt(bits, start, SYMBOLS_PER_WORD)
  {
    hide PairSymbol, First, Second;
    var row, start := Completed(bits, offset, count), offset + WORD_BITS * index;
    var chunk := SymbolsAt(row, start, SYMBOLS_PER_WORD);
    if offset + WORD_BITS * count == |bits| + 1 && index == count - 1 {
      assert |bits| == start + 25 && chunk[12] == PairSymbol(bits[start + 24], false);
      assert bits[start + 24..] == [bits[start + 24]];
      assert PairSymbol(true, false) == B1 && PairSymbol(false, false) == Z by { PairTable(); }
    }
  }

  lemma PairTable()
    ensures PairSymbol(true, false) == B1 && PairSymbol(false, false) == Z
  {}

  /** The body of the word loop: `chunk` is what the thirteen symbols would be in the completed row. */
  method DecodeOneWord(bits: seq<bool>, start: nat, first: bool, truncatedLast: bool, ghost chunk: seq<Symbol>)
    returns (r: Option<bv8>)
    requires |chunk| == SYMBOLS_PER_WORD
    requires if truncatedLast then
               && start + 24 <= |bits| && chunk[..12] == SymbolsAt(bits, start, 12)
               && (chunk[12] == B1 <==> bits[start + 24..] == [true])
             else
               start + WORD_BITS <= |bits| && chunk == SymbolsAt(bits, start, SYMBOLS_PER_WORD)
    ensures r.Some? <==> IsWord(chunk, first)
    ensures r.Some? ==> r.value == DataByte(chunk[2..10])
  {
    hide PairSymbol, DataByte, Ones;
    var length := if truncatedLast then SYMBOLS_PER_WORD - 1 else SYMBOLS_PER_WORD;
    var symbols := SymbolsAt(bits, start, length);
    assert symbols == chunk[..length];
    if symbols[0] != S || symbols[1] != B1 {
      return None;
    }
    if truncatedLast {
      if bits[start + 24..] != [true] {
        return None;
      }
    } else if symbols[12] != B1 {
      return None;
    }
    var data, parity := symbols[2..11], symbols[11];
    assert data == chunk[2..11] && parity == chunk[11];
    if (exists i :: 0 <= i < 9 && data[i] != B0 && data[i] != B1) || (parity != B0 && parity != B1) {
      return None;
    }
    if parity != ParitySymbol(data) {
      return None;
    }
    if data[8] != DataSymbol(first) {
      return None;
    }
    assert data[..8] == chunk[2..10];
    r := Some(DataByte(data[..8]));
  }

  /** _decode_words: exactly the words the row carries, or nothing when it carries none. */
  method DecodeWords(bits: seq<bool>, offset: nat, count: nat) returns (r: Option<seq<bv8>>)
    requires count > 0
    ensures r.Some? ==> |r.value| == count && Decodes(bits, offset, r.value)
    ensures r.None? ==> forall words :: |words| == count ==> !Decodes(bits, offset, words)
  {
    hide Carries, PairSymbol, DataByte, IsWord, Completed;
    var end := offset + WORD_BITS * count;
    var truncated := end == |bits| + 1;
    ghost var row := Completed(bits, offset, count);
    CompletedLength(bits, offset, count);
    if end > |bits| && !truncated {
      TooShort(row, offset, count);
      return None;
    }
    var values: seq<bv8> := [];
    NoWords(row, offset);
    for index := 0 to count
      invariant |values| == index && Carries(row, offset, values)
    {
      var start := offset + WORD_BITS * index;
      ghost var chunk := SymbolsAt(row, start, SYMBOLS_PER_WORD);
      ChunkOfCompleted(bits, offset, count, index);
      var word := DecodeOneWord(bits, start, index == 0, truncated && index == count - 1, chunk);
      if word.None? {
        NotAWord(row, offset, count, index);
        return None;
      }
      assert (values + [word.value])[..index] == values;
      values := values + [word.value];
      WordExtends(row, offset, values);
    }
    return Some(values);
  }

  lemma CompletedLength(bits: seq<bool>, offset: nat, count: nat)
    ensures var end := offset + WORD_BITS * count;
            |Completed(bits, offset, count)| == if end == |bits| + 1 then end else |bits|
  {}

  lemma TooShort(row: seq<bool>, offset: nat, count: nat)
    requires |row| < offset + WORD_BITS * count
    ensures forall words :: |words| == count ==> !Carries(row, offset, words)
  {}

  lemma NoWords(row: seq<bool>, offset: nat)
    requires offset <= |row|
    ensures Carries(row, offset, [])
  {}
}
