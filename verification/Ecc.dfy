/**
  Err bytes, extended integrity lanes and C/D derivation:
  custom_components/proflame2/protocol/ecc.py.
 */
module Ecc {
  import opened Wrappers
  import opened Bytes

  /** Stable constants learned from a handheld remote, one nibble each. */
  datatype EccProfile = EccProfile(c1: bv8, d1: bv8, c2: bv8, d2: bv8)

  // ----- The Err byte -----

  function BuildErrByte(command: bv8, c: bv8, d: bv8): bv8 {
    var high := (command >> 4) & 0x0F;
    var low := command & 0x0F;
    var errHigh := ((c & 0x0F) ^ high ^ ((high << 1) & 0x0F) ^ ((low << 1) & 0x0F)) & 0x0F;
    var errLow := ((d & 0x0F) ^ high ^ low) & 0x0F;
    (errHigh << 4) | errLow
  }

  /** The C/D-free core transform. */
  function T(value: bv8): bv8 { BuildErrByte(value, 0, 0) }

  function CombineCd(c: bv8, d: bv8): bv8 { ((c & 0x0F) << 4) | (d & 0x0F) }

  function SplitC(cd: bv8): bv8 { (cd >> 4) & 0x0F }

  function SplitD(cd: bv8): bv8 { cd & 0x0F }

  /** Undoes `T`. */
  function TInverse(err: bv8): bv8 {
    var high := ((err >> 4) ^ (err << 1)) & 0x0F;
    (high << 4) | ((high ^ err) & 0x0F)
  }

  /** `a ^ b`, named so that the algebra below can be done with three laws instead of bit by bit. */
  function Xor(a: bv8, b: bv8): bv8 { a ^ b }

  lemma XorSwap(a: bv8, b: bv8, c: bv8, d: bv8)
    ensures Xor(Xor(a, b), Xor(c, d)) == Xor(Xor(a, c), Xor(b, d))
  {
    hide Xor;
    XorAssoc(a, b, Xor(c, d));
    XorAssoc(b, c, d);
    XorAssoc(c, b, d);
    XorAssoc(a, c, Xor(b, d));
  }

  lemma XorAssoc(a: bv8, b: bv8, c: bv8)
    ensures Xor(Xor(a, b), c) == Xor(a, Xor(b, c)) && Xor(a, b) == Xor(b, a)
  {}

  lemma XorZero(a: bv8)
    ensures Xor(a, 0) == a && Xor(0, a) == a && Xor(a, a) == 0
  {}

  /** The group laws of XOR, as used below. */
  lemma XorLaws(a: bv8, b: bv8, c: bv8, d: bv8)
    ensures Xor(Xor(a, b), Xor(c, d)) == Xor(Xor(a, c), Xor(b, d))
    ensures Xor(a, b) == 0 <==> a == b
    ensures Xor(a, b) == c <==> b == Xor(c, a)
    ensures Xor(a, 0) == a && Xor(0, a) == a
  {
    hide Xor;
    XorSwap(a, b, c, d);
    XorZero(a);
    XorZero(b);
    XorAssoc(a, b, b);
    XorAssoc(a, a, b);
    XorAssoc(c, a, a);
    XorAssoc(b, a, a);
    XorAssoc(a, b, a);
    XorZero(c);
  }

  lemma LowNibbleLinear(a: bv8, b: bv8)
    ensures T(a ^ b) & 0x0F == (T(a) ^ T(b)) & 0x0F
  {}

  lemma MiddleBitsLinear(a: bv8, b: bv8)
    ensures T(a ^ b) & 0x30 == (T(a) ^ T(b)) & 0x30
  {}

  lemma HighBitsLinear(a: bv8, b: bv8)
    ensures T(a ^ b) & 0xC0 == (T(a) ^ T(b)) & 0xC0
  {}

  lemma SameParts(x: bv8, y: bv8)
    requires x & 0x0F == y & 0x0F && x & 0x30 == y & 0x30 && x & 0xC0 == y & 0xC0
    ensures x == y
  {}

  /** An odd number of the four is set. */
  predicate Odd(a: bool, b: bool, c: bool, d: bool) { (a != b) != (c != d) }

  predicate Bit(byte: bv8, mask: bv8) { byte & mask != 0 }

  lemma ErrBits76(command: bv8, c: bv8, d: bv8)
    ensures Bit(BuildErrByte(command, c, d), 0x80) <==> Odd(Bit(c, 0x08), Bit(command, 0x80), Bit(command, 0x40), Bit(command, 0x04))
    ensures Bit(BuildErrByte(command, c, d), 0x40) <==> Odd(Bit(c, 0x04), Bit(command, 0x40), Bit(command, 0x20), Bit(command, 0x02))
  {}

  lemma ErrBits54(command: bv8, c: bv8, d: bv8)
    ensures Bit(BuildErrByte(command, c, d), 0x20) <==> Odd(Bit(c, 0x02), Bit(command, 0x20), Bit(command, 0x10), Bit(command, 0x01))
    ensures Bit(BuildErrByte(command, c, d), 0x10) <==> Odd(Bit(c, 0x01), Bit(command, 0x10), false, false)
  {}

  lemma ErrBits32(command: bv8, c: bv8, d: bv8)
    ensures Bit(BuildErrByte(command, c, d), 0x08) <==> Odd(Bit(d, 0x08), Bit(command, 0x80), Bit(command, 0x08), false)
    ensures Bit(BuildErrByte(command, c, d), 0x04) <==> Odd(Bit(d, 0x04), Bit(command, 0x40), Bit(command, 0x04), false)
  {}

  lemma ErrBits10(command: bv8, c: bv8, d: bv8)
    ensures Bit(BuildErrByte(command, c, d), 0x02) <==> Odd(Bit(d, 0x02), Bit(command, 0x20), Bit(command, 0x02), false)
    ensures Bit(BuildErrByte(command, c, d), 0x01) <==> Odd(Bit(d, 0x01), Bit(command, 0x10), Bit(command, 0x01), false)
  {}

  /** The Err byte, bit by bit: one bit of a constant and up to three of the command. */
  lemma ErrBits(command: bv8, c: bv8, d: bv8)
    ensures var err := BuildErrByte(command, c, d);
            && (Bit(err, 0x80) <==> Odd(Bit(c, 0x08), Bit(command, 0x80), Bit(command, 0x40), Bit(command, 0x04)))
            && (Bit(err, 0x40) <==> Odd(Bit(c, 0x04), Bit(command, 0x40), Bit(command, 0x20), Bit(command, 0x02)))
            && (Bit(err, 0x20) <==> Odd(Bit(c, 0x02), Bit(command, 0x20), Bit(command, 0x10), Bit(command, 0x01)))
            && (Bit(err, 0x10) <==> Odd(Bit(c, 0x01), Bit(command, 0x10), false, false))
            && (Bit(err, 0x08) <==> Odd(Bit(d, 0x08), Bit(command, 0x80), Bit(command, 0x08), false))
            && (Bit(err, 0x04) <==> Odd(Bit(d, 0x04), Bit(command, 0x40), Bit(command, 0x04), false))
            && (Bit(err, 0x02) <==> Odd(Bit(d, 0x02), Bit(command, 0x20), Bit(command, 0x02), false))
            && (Bit(err, 0x01) <==> Odd(Bit(d, 0x01), Bit(command, 0x10), Bit(command, 0x01), false))
  {
    hide *;
    ErrBits76(command, c, d);
    ErrBits54(command, c, d);
    ErrBits32(command, c, d);
    ErrBits10(command, c, d);
  }

  /** What the transform makes of each single bit; as it is linear, this determines it. */
  lemma TransformTable()
    ensures T(0x01) == 0x21 && T(0x02) == 0x42 && T(0x04) == 0x84 && T(0x08) == 0x08
    ensures T(0x10) == 0x31 && T(0x20) == 0x62 && T(0x40) == 0xC4 && T(0x80) == 0x88
  {}

  lemma TransformInverse(a: bv8)
    ensures TInverse(T(a)) == a && T(TInverse(a)) == a
    ensures T(0) == 0
  {}

  lemma TransformLinear(a: bv8, b: bv8)
    ensures T(Xor(a, b)) == Xor(T(a), T(b))
  {
    hide T;
    LowNibbleLinear(a, b);
    MiddleBitsLinear(a, b);
    HighBitsLinear(a, b);
    SameParts(T(a ^ b), T(a) ^ T(b));
  }

  /** The transform is the GF(2)-linear bijection of bytes with these images of the single bits. */
  lemma TransformAlgebra(a: bv8, b: bv8)
    ensures T(0x01) == 0x21 && T(0x02) == 0x42 && T(0x04) == 0x84 && T(0x08) == 0x08
    ensures T(0x10) == 0x31 && T(0x20) == 0x62 && T(0x40) == 0xC4 && T(0x80) == 0x88
    ensures T(Xor(a, b)) == Xor(T(a), T(b))
    ensures TInverse(T(a)) == a && T(TInverse(a)) == a
    ensures T(a) == T(b) <==> a == b
    ensures T(0) == 0
  {
    hide *;
    TransformTable();
    TransformLinear(a, b);
    TransformInverse(a);
    TransformInverse(b);
  }

  lemma ErrNibbles(command: bv8, c: bv8, d: bv8)
    ensures BuildErrByte(command, c, d) & 0x0F == (T(command) ^ CombineCd(c, d)) & 0x0F
    ensures BuildErrByte(command, c, d) & 0x30 == (T(command) ^ CombineCd(c, d)) & 0x30
  {}

  lemma ErrHighBits(command: bv8, c: bv8, d: bv8)
    ensures BuildErrByte(command, c, d) & 0xC0 == (T(command) ^ CombineCd(c, d)) & 0xC0
  {}

  lemma CombineSplit(c: bv8, d: bv8)
    ensures SplitC(CombineCd(c, d)) == c & 0x0F && SplitD(CombineCd(c, d)) == d & 0x0F
  {}

  /** The constants act by plain XOR on top of the transform. */
  lemma ErrByteIsAffine(command: bv8, c: bv8, d: bv8)
    ensures BuildErrByte(command, c, d) == Xor(T(command), CombineCd(c, d))
    ensures SplitC(CombineCd(c, d)) == c & 0x0F && SplitD(CombineCd(c, d)) == d & 0x0F
  {
    hide BuildErrByte, T, CombineCd, SplitC, SplitD;
    CombineSplit(c, d);
    ErrNibbles(command, c, d);
    ErrHighBits(command, c, d);
    SameParts(BuildErrByte(command, c, d), T(command) ^ CombineCd(c, d));
  }

  lemma SplitCombine(cd: bv8)
    ensures CombineCd(SplitC(cd), SplitD(cd)) == cd
  {}

  // ----- Extended integrity lanes -----

  /** The value of the chained transform after the given bytes. */
  function Lane(values: seq<bv8>): bv8 {
    if values == [] then 0 else T(Xor(Lane(values[..|values| - 1]), values[|values| - 1]))
  }

  /** build_extended_integrity_byte */
  method BuildExtendedIntegrityByte(values: seq<bv8>, finalXor: bv8) returns (integrity: bv8)
    ensures integrity == Xor(Lane(values), finalXor)
  {
    hide BuildErrByte;
    integrity := 0;
    for i := 0 to |values|
      invariant integrity == Lane(values[..i])
    {
      assert values[..i + 1][..i] == values[..i];
      integrity := BuildErrByte(integrity ^ values[i], 0, 0);
    }
    assert values[..|values|] == values;
    integrity := integrity ^ finalXor;
  }

  function TPower(k: nat, value: bv8): bv8 {
    if k == 0 then value else T(TPower(k - 1, value))
  }

  function Xored(a: seq<bv8>, b: seq<bv8>): (r: seq<bv8>)
    requires |a| == |b|
    ensures |r| == |a| && forall i :: 0 <= i < |r| ==> r[i] == Xor(a[i], b[i])
  {
    seq(|a|, i requires 0 <= i < |a| => Xor(a[i], b[i]))
  }

  lemma {:induction false} TPowerInjective(k: nat, a: bv8, b: bv8)
    ensures TPower(k, a) == TPower(k, b) <==> a == b
    ensures TPower(k, 0) == 0
  {
    hide T, Xor;
    if k > 0 {
      TPowerInjective(k - 1, a, b);
      TransformAlgebra(TPower(k - 1, a), TPower(k - 1, b));
    }
  }

  /** Equal-length value lists: the lane of the XOR is the XOR of the lanes. */
  lemma {:induction false} LaneLinear(a: seq<bv8>, b: seq<bv8>)
    requires |a| == |b|
    ensures Lane(Xored(a, b)) == Xor(Lane(a), Lane(b))
  {
    hide T, Xor;
    if a != [] {
      var n := |a| - 1;
      LaneLinear(a[..n], b[..n]);
      assert Xored(a, b)[..n] == Xored(a[..n], b[..n]);
      XorLaws(Lane(a[..n]), Lane(b[..n]), a[n], b[n]);
      TransformAlgebra(Xor(Lane(a[..n]), a[n]), Xor(Lane(b[..n]), b[n]));
    } else {
      XorLaws(0, 0, 0, 0);
    }
  }

  /** A list that is zero except at the given places. */
  ghost predicate ZeroExcept(values: seq<bv8>, places: set<nat>) {
    forall i :: 0 <= i < |values| && i !in places ==> values[i] == 0
  }

  lemma {:induction false} LaneOfZeros(values: seq<bv8>)
    requires ZeroExcept(values, {})
    ensures Lane(values) == 0
  {
    hide T, Xor;
    if values != [] {
      LaneOfZeros(values[..|values| - 1]);
      XorLaws(0, 0, 0, 0);
      TransformAlgebra(0, 0);
    }
  }

  /** One non-zero value reaches the lane through as many transforms as it has successors, plus one. */
  lemma {:induction false} LaneOfOne(values: seq<bv8>, i: nat)
    requires i < |values| && ZeroExcept(values, {i})
    ensures Lane(values) == TPower(|values| - i, values[i])
  {
    hide T, Xor;
    var n := |values| - 1;
    if i == n {
      LaneOfZeros(values[..n]);
      XorLaws(values[n], 0, 0, 0);
      assert TPower(1, values[n]) == T(TPower(0, values[n]));
    } else {
      LaneOfOne(values[..n], i);
      XorLaws(Lane(values[..n]), 0, 0, 0);
    }
  }

  lemma {:induction false} LaneOfTwo(values: seq<bv8>, i: nat, j: nat)
    requires i < j < |values| && ZeroExcept(values, {i, j})
    ensures Lane(values) == Xor(TPower(|values| - i, values[i]), TPower(|values| - j, values[j]))
  {
    hide T, Xor, TPower, Lane;
    var n := |values|;
    var only := seq(n, k requires 0 <= k < n => if k == i then values[i] else 0);
    var rest := seq(n, k requires 0 <= k < n => if k == j then values[j] else 0);
    forall k | 0 <= k < n ensures values[k] == Xor(only[k], rest[k]) { XorLaws(values[k], 0, 0, 0); }
    assert values == Xored(only, rest);
    LaneLinear(only, rest);
    LaneOfOne(only, i);
    LaneOfOne(rest, j);
  }

  lemma XoredZeroWhereEqual(a: seq<bv8>, b: seq<bv8>)
    requires |a| == |b|
    ensures forall k :: 0 <= k < |a| ==> (Xored(a, b)[k] == 0 <==> a[k] == b[k])
    ensures Lane(Xored(a, b)) == 0 <==> Lane(a) == Lane(b)
  {
    hide T, Xor, Lane;
    forall k | 0 <= k < |a| ensures Xored(a, b)[k] == 0 <==> a[k] == b[k] { XorLaws(a[k], b[k], 0, 0); }
    LaneLinear(a, b);
    XorLaws(Lane(a), Lane(b), 0, 0);
  }

  /** Changing exactly one value always changes the lane. */
  lemma OneChangeIsDetected(a: seq<bv8>, b: seq<bv8>, i: nat)
    requires |a| == |b| && i < |a| && a[i] != b[i]
    requires forall k :: 0 <= k < |a| && k != i ==> a[k] == b[k]
    ensures Lane(a) != Lane(b)
  {
    hide T, Xor, TPower, Lane;
    var d := Xored(a, b);
    XoredZeroWhereEqual(a, b);
    LaneOfOne(d, i);
    TPowerInjective(|a| - i, d[i], 0);
  }

  /** Two changes cancel exactly when their transform powers coincide. */
  lemma TwoChangesCancelIff(a: seq<bv8>, b: seq<bv8>, i: nat, j: nat)
    requires |a| == |b| && i < j < |a|
    requires forall k :: 0 <= k < |a| && k != i && k != j ==> a[k] == b[k]
    ensures Lane(a) == Lane(b) <==> TPower(|a| - i, Xor(a[i], b[i])) == TPower(|a| - j, Xor(a[j], b[j]))
  {
    hide T, Xor, TPower, Lane;
    var d := Xored(a, b);
    XoredZeroWhereEqual(a, b);
    LaneOfTwo(d, i, j);
    XorLaws(TPower(|a| - i, d[i]), TPower(|a| - j, d[j]), 0, 0);
  }

  lemma LaneOfPair(a: bv8, b: bv8)
    ensures Lane([a, b]) == T(Xor(T(a), b))
  {
    hide T, Xor;
    XorZero(a);
    assert [a, b][..1] == [a] && [a][..0] == [];
    assert Lane([a]) == T(Xor(Lane([]), a));
  }

  lemma LaneOfTriple(a: bv8, b: bv8, c: bv8)
    ensures Lane([a, b, c]) == T(Xor(T(Xor(T(a), b)), c))
  {
    hide T, Xor;
    LaneOfPair(a, b);
    assert [a, b, c][..2] == [a, b];
  }

  /** extended_frame_integrity_matches */
  predicate IntegrityMatches(words: seq<bv8>) {
    && |words| == 10
    && Xor(Lane([words[4], words[6]]), 0x23) == words[8]
    && Xor(Lane([words[3], words[5], words[7]]), 0x65) == words[9]
  }

  /** build_extended_integrity_words: W9 and W10 from W4..W8. */
  function IntegrityWords(w4: bv8, w5: bv8, w6: bv8, w7: bv8, w8: bv8): (bv8, bv8) {
    (Xor(Lane([w5, w7]), 0x23), Xor(Lane([w4, w6, w8]), 0x65))
  }

  /** For every choice of the other words exactly one pair W9, W10 passes: the generated one. */
  lemma GeneratedWordsAreTheOnlyMatch(words: seq<bv8>)
    requires |words| == 10
    ensures IntegrityMatches(words)
       <==> (words[8], words[9]) == IntegrityWords(words[3], words[4], words[5], words[6], words[7])
  {
    hide T, Xor, Lane;
  }

  lemma XorCancel(lane: bv8, change: bv8, x: bv8, e: bv8)
    ensures Xor(lane, x) == Xor(change, x) <==> lane == change
    ensures Xor(Xor(lane, change), x) == Xor(Xor(lane, x), e) <==> change == e
  {
    hide Xor;
    XorAssoc(lane, x, x);
    XorAssoc(change, x, x);
    XorZero(x);
    XorZero(lane);
    XorZero(change);
    XorAssoc(lane, change, x);
    XorAssoc(change, x, 0);
    XorAssoc(lane, x, change);
    var base := Xor(lane, x);
    assert Xor(Xor(lane, change), x) == Xor(base, change);
    XorLaws(base, change, Xor(base, e), 0);
    XorLaws(base, e, Xor(base, e), 0);
  }

  /** Which corruptions of a valid frame still pass: exactly the solutions of two linear equations in the error. */
  lemma UndetectedErrors(words: seq<bv8>, error: seq<bv8>)
    requires IntegrityMatches(words) && |error| == 10
    ensures IntegrityMatches(Xored(words, error))
       <==> Lane([error[4], error[6]]) == error[8] && Lane([error[3], error[5], error[7]]) == error[9]
  {
    hide T, Xor, Lane;
    var bad := Xored(words, error);
    var w9, e9 := [words[4], words[6]], [error[4], error[6]];
    var w10, e10 := [words[3], words[5], words[7]], [error[3], error[5], error[7]];
    assert Xored(w9, e9) == [bad[4], bad[6]];
    assert Xored(w10, e10) == [bad[3], bad[5], bad[7]];
    LaneLinear(w9, e9);
    LaneLinear(w10, e10);
    XorCancel(Lane(w9), Lane(e9), 0x23, error[8]);
    XorCancel(Lane(w10), Lane(e10), 0x65, error[9]);
  }

  /** An error confined to one of the words W4..W10 of a valid frame is always rejected. */
  lemma OneWordErrorIsRejected(words: seq<bv8>, i: nat, wrong: bv8)
    requires IntegrityMatches(words) && 3 <= i < 10 && wrong != words[i]
    ensures !IntegrityMatches(words[i := wrong])
  {
    hide T, Xor, Lane;
    var bad := words[i := wrong];
    var w9, b9 := [words[4], words[6]], [bad[4], bad[6]];
    var w10, b10 := [words[3], words[5], words[7]], [bad[3], bad[5], bad[7]];
    XorCancel(Lane(w9), Lane(b9), 0x23, 0);
    XorCancel(Lane(w10), Lane(b10), 0x65, 0);
    if i == 4 || i == 6 {
      OneChangeIsDetected(w9, b9, (i - 4) / 2);
    } else if i < 8 {
      OneChangeIsDetected(w10, b10, (i - 3) / 2);
    }
  }

  // ----- Deriving C/D -----

  datatype DeriveError = NoSamples | NoStable | Ambiguous(remaining: nat)

  datatype Sample = Sample(command: bv8, err: bv8)

  /** The CD bytes below `limit` that reproduce the Err byte, in increasing order. */
  function CandidatesBelow(sample: Sample, limit: nat): seq<bv8>
    requires limit <= 0x100
  {
    if limit == 0 then []
    else
      var cd := ByteOf(limit - 1);
      CandidatesBelow(sample, limit - 1)
      + if BuildErrByte(sample.command, SplitC(cd), SplitD(cd)) == sample.err then [cd] else []
  }

  /** derive_cd_candidates: the brute-force search over the whole byte range. */
  function DeriveCdCandidates(sample: Sample): seq<bv8> { CandidatesBelow(sample, 0x100) }

  /** The closed form of the search. */
  function ImpliedCd(sample: Sample): bv8 { Xor(sample.err, T(sample.command)) }

  lemma ReproducesIff(sample: Sample, cd: bv8)
    ensures BuildErrByte(sample.command, SplitC(cd), SplitD(cd)) == sample.err <==> cd == ImpliedCd(sample)
  {
    hide BuildErrByte, T, Xor, CombineCd, SplitC, SplitD;
    ErrByteIsAffine(sample.command, SplitC(cd), SplitD(cd));
    SplitCombine(cd);
    XorLaws(T(sample.command), cd, sample.err, 0);
  }

  lemma {:induction false} CandidatesAreSingleton(sample: Sample, limit: nat)
    requires limit <= 0x100
    ensures CandidatesBelow(sample, limit) == if ValueOf(ImpliedCd(sample)) < limit then [ImpliedCd(sample)] else []
  {
    hide BuildErrByte, T, Xor, CombineCd, SplitC, SplitD, ImpliedCd, ByteOf, ValueOf;
    if limit > 0 {
      CandidatesAreSingleton(sample, limit - 1);
      ReproducesIff(sample, ByteOf(limit - 1));
      ByteOfValue(limit - 1, ImpliedCd(sample));
    }
  }

  /** Brute force finds exactly one candidate for every observed pair. */
  lemma BruteForceIsClosedForm(sample: Sample)
    ensures DeriveCdCandidates(sample) == [ImpliedCd(sample)]
  {
    CandidatesAreSingleton(sample, 0x100);
  }

  /** The intersection of the candidate sets. */
  function StableCandidates(samples: seq<Sample>): set<bv8>
    requires samples != []
  {
    var last := samples[|samples| - 1];
    var candidates := set cd | cd in DeriveCdCandidates(last);
    if |samples| == 1 then candidates else StableCandidates(samples[..|samples| - 1]) * candidates
  }

  ghost predicate AllImply(samples: seq<Sample>, cd: bv8) {
    forall s :: s in samples ==> ImpliedCd(s) == cd
  }

  lemma {:induction false} StableCandidatesAre(samples: seq<Sample>, cd: bv8)
    requires samples != []
    ensures cd in StableCandidates(samples) <==> AllImply(samples, cd)
  {
    hide CandidatesBelow, DeriveCdCandidates, ImpliedCd;
    var n := |samples| - 1;
    BruteForceIsClosedForm(samples[n]);
    if n > 0 {
      StableCandidatesAre(samples[..n], cd);
      assert samples == samples[..n] + [samples[n]];
    }
  }

  lemma AtMostOneStable(samples: seq<Sample>)
    requires samples != []
    ensures StableCandidates(samples) <= {ImpliedCd(samples[0])}
    ensures |StableCandidates(samples)| <= 1
  {
    var stable := StableCandidates(samples);
    forall cd | cd in stable ensures cd == ImpliedCd(samples[0]) { StableCandidatesAre(samples, cd); }
    if stable != {} {
      assert stable == {ImpliedCd(samples[0])};
    }
  }

  /** derive_stable_cd */
  function DeriveStableCd(samples: seq<Sample>): Result<bv8, DeriveError> {
    if samples == [] then Err(NoSamples)
    else
      var stable := StableCandidates(samples);
      if stable == {} then Err(NoStable)
      else if |stable| > 1 then Err(Ambiguous(|stable|))
      else
        AtMostOneStable(samples);
        var cd :| cd in stable;
        Ok(cd)
  }

  ghost predicate Disagree(samples: seq<Sample>) {
    exists i, j :: 0 <= i < j < |samples| && ImpliedCd(samples[i]) != ImpliedCd(samples[j])
  }

  lemma AgreeOrDisagree(samples: seq<Sample>)
    requires samples != []
    ensures forall cd :: AllImply(samples, cd) ==> cd == ImpliedCd(samples[0])
    ensures AllImply(samples, ImpliedCd(samples[0])) <==> !Disagree(samples)
  {
    hide ImpliedCd;
    assert samples[0] in samples;
    if !AllImply(samples, ImpliedCd(samples[0])) {
      var s :| s in samples && ImpliedCd(s) != ImpliedCd(samples[0]);
      var j :| 0 <= j < |samples| && samples[j] == s;
      assert 0 < j;
    }
  }

  /** Derivation succeeds exactly when the samples agree; the ambiguous branch is dead. */
  lemma StableCdIff(samples: seq<Sample>)
    ensures forall cd :: DeriveStableCd(samples) == Ok(cd) <==> samples != [] && AllImply(samples, cd)
    ensures DeriveStableCd(samples) == Err(NoSamples) <==> samples == []
    ensures DeriveStableCd(samples) == Err(NoStable) <==> Disagree(samples)
    ensures DeriveStableCd(samples).Err? ==> !DeriveStableCd(samples).error.Ambiguous?
  {
    hide ImpliedCd, AllImply, StableCandidates, Disagree;
    if samples != [] {
      AtMostOneStable(samples);
      AgreeOrDisagree(samples);
      forall cd ensures cd in StableCandidates(samples) <==> AllImply(samples, cd) { StableCandidatesAre(samples, cd); }
    } else {
      NothingDisagrees();
    }
  }

  lemma NothingDisagrees()
    ensures !Disagree([])
  {}

  /** derive_ecc_profile */
  function DeriveEccProfile(cmd1: seq<Sample>, cmd2: seq<Sample>): Result<EccProfile, DeriveError> {
    match DeriveStableCd(cmd1)
    case Err(e) => Err(e)
    case Ok(cd1) =>
      match DeriveStableCd(cmd2)
      case Err(e) => Err(e)
      case Ok(cd2) => Ok(EccProfile(SplitC(cd1), SplitD(cd1), SplitC(cd2), SplitD(cd2)))
  }

  function Err1For(command: bv8, ecc: EccProfile): bv8 { BuildErrByte(command, ecc.c1, ecc.d1) }

  function Err2For(command: bv8, ecc: EccProfile): bv8 { BuildErrByte(command, ecc.c2, ecc.d2) }

  predicate Nibbles(ecc: EccProfile) {
    ecc.c1 & 0x0F == ecc.c1 && ecc.d1 & 0x0F == ecc.d1 && ecc.c2 & 0x0F == ecc.c2 && ecc.d2 & 0x0F == ecc.d2
  }

  lemma ImpliedByConstants(sample: Sample, c: bv8, d: bv8)
    ensures sample.err == BuildErrByte(sample.command, c, d) <==> ImpliedCd(sample) == CombineCd(c, d)
  {
    hide BuildErrByte, T, Xor, CombineCd;
    ErrByteIsAffine(sample.command, c, d);
    XorLaws(T(sample.command), CombineCd(c, d), sample.err, 0);
  }

  lemma CombineInjective(c: bv8, d: bv8, cd: bv8)
    requires c & 0x0F == c && d & 0x0F == d
    ensures CombineCd(c, d) == cd <==> c == SplitC(cd) && d == SplitD(cd)
  {}

  /** The derived profile is the only one that explains every sample, and it is found whenever one exists. */
  lemma ProfileDerivedIff(cmd1: seq<Sample>, cmd2: seq<Sample>, ecc: EccProfile)
    requires cmd1 != [] && cmd2 != [] && Nibbles(ecc)
    ensures DeriveEccProfile(cmd1, cmd2) == Ok(ecc)
       <==> && (forall s :: s in cmd1 ==> s.err == Err1For(s.command, ecc))
            && (forall s :: s in cmd2 ==> s.err == Err2For(s.command, ecc))
  {
    hide BuildErrByte, DeriveStableCd, ImpliedCd, CombineCd, SplitC, SplitD;
    var cd1, cd2 := CombineCd(ecc.c1, ecc.d1), CombineCd(ecc.c2, ecc.d2);
    StableCdIff(cmd1);
    StableCdIff(cmd2);
    forall s: Sample ensures s.err == Err1For(s.command, ecc) <==> ImpliedCd(s) == cd1 { ImpliedByConstants(s, ecc.c1, ecc.d1); }
    forall s: Sample ensures s.err == Err2For(s.command, ecc) <==> ImpliedCd(s) == cd2 { ImpliedByConstants(s, ecc.c2, ecc.d2); }
    forall cd ensures cd == cd1 <==> ecc.c1 == SplitC(cd) && ecc.d1 == SplitD(cd) { CombineInjective(ecc.c1, ecc.d1, cd); }
    forall cd ensures cd == cd2 <==> ecc.c2 == SplitC(cd) && ecc.d2 == SplitD(cd) { CombineInjective(ecc.c2, ecc.d2, cd); }
    assert AllImply(cmd1, cd1) <==> DeriveStableCd(cmd1) == Ok(cd1);
    assert AllImply(cmd2, cd2) <==> DeriveStableCd(cmd2) == Ok(cd2);
  }
}
