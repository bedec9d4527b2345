/**
  _affine_fit_summary of tools/proflame_extended/analyze_issue_15.py: the rank test for an affine fit of
  an output bit on the 32 state bits, and why it is right.
 */
module AffineFit {
  import opened Wrappers
  import opened Gf2

  /** The on-air words of one accepted capture. */
  type Words = words: seq<bv8> | |words| == 10 witness [0, 0, 0, 0, 0, 0, 0, 0, 0, 0]

  const STATE_WORD_START := 3
  const STATE_BITS := 32
  const OUTPUT_COLUMN := 33

  function BitOf(w: bv8, k: nat): bool
    requires k < 8
  {
    (w >> k) & 1 == 1
  }

  lemma BitMasks(w: bv8)
    ensures (BitOf(w, 0) <==> w & 0x01 != 0) && (BitOf(w, 1) <==> w & 0x02 != 0) && (BitOf(w, 2) <==> w & 0x04 != 0)
    ensures (BitOf(w, 3) <==> w & 0x08 != 0) && (BitOf(w, 4) <==> w & 0x10 != 0) && (BitOf(w, 5) <==> w & 0x20 != 0)
    ensures (BitOf(w, 6) <==> w & 0x40 != 0) && (BitOf(w, 7) <==> w & 0x80 != 0)
  {}

  function ByteVec(w: bv8): Vec { set k: nat | k < 8 && BitOf(w, k) }

  /** Bit k of the feature vector is bit k % 8 of state word k / 8. */
  function Feature(words: Words): Vec {
    set k: nat | k < STATE_BITS && BitOf(words[3 + k / 8], k % 8)
  }

  /** _state_feature_vector */
  method StateFeatureVector(words: Words) returns (vector: Vec)
    ensures vector == Feature(words)
    ensures forall k: nat :: k in vector <==>
              || (k < 8 && BitOf(words[3], k))
              || (8 <= k < 16 && BitOf(words[4], k - 8))
              || (16 <= k < 24 && BitOf(words[5], k - 16))
              || (24 <= k < 32 && BitOf(words[6], k - 24))
  {
    hide BitOf;
    vector := {};
    for offset := 0 to 4
      invariant vector == set k: nat | k < 8 * offset && BitOf(words[STATE_WORD_START + k / 8], k % 8)
    {
      var word := words[STATE_WORD_START + offset];
      var shifted := ShiftLeft(ByteVec(word), 8 * offset);
      forall k: nat ensures k in shifted <==> 8 * offset <= k < 8 * offset + 8 && BitOf(word, k % 8) {
        InShift(ByteVec(word), 8 * offset, k);
      }
      vector := vector + shifted;
    }
  }

  /** `1 | (feature << 1)` */
  function Design(feature: Vec): Vec { {0} + ShiftLeft(feature, 1) }

  /** The design row with the output bit in column 33. */
  function Augmented(feature: Vec, output: bool): Vec {
    Design(feature) + if output then {OUTPUT_COLUMN} else {}
  }

  // ----- What the analysis asks for -----

  function Output(words: Words, index: nat, bit: nat): bool
    requires index < 10 && bit < 8
  {
    BitOf(words[index], bit)
  }

  /** An affine function of the 32 state bits. */
  datatype AffineMap = AffineMap(constant: bool, coefficients: Vec)

  function Apply(f: AffineMap, words: Words): bool { f.constant != Dot(f.coefficients, Feature(words)) }

  /** The affine function gives the output bit of every capture. */
  ghost predicate Fits(captures: seq<Words>, index: nat, bit: nat, f: AffineMap)
    requires index < 10 && bit < 8
  {
    && f.coefficients <= Below(STATE_BITS)
    && forall i :: 0 <= i < |captures| ==> Apply(f, captures[i]) == Output(captures[i], index, bit)
  }

  ghost predicate SomeFit(captures: seq<Words>, index: nat, bit: nat)
    requires index < 10 && bit < 8
  {
    exists f :: Fits(captures, index, bit, f)
  }

  function Rows(captures: seq<Words>, index: nat, bit: nat): (rows: seq<Vec>)
    requires index < 10 && bit < 8
    ensures |rows| == |captures|
    ensures forall i :: 0 <= i < |rows| ==> rows[i] == Augmented(Feature(captures[i]), Output(captures[i], index, bit))
  {
    seq(|captures|, i requires 0 <= i < |captures| => Augmented(Feature(captures[i]), Output(captures[i], index, bit)))
  }

  /** `row & mask` along a list. */
  function Masked(rows: seq<Vec>, mask: Vec): (masked: seq<Vec>)
    ensures |masked| == |rows| && forall i :: 0 <= i < |rows| ==> masked[i] == rows[i] * mask
  {
    seq(|rows|, i requires 0 <= i < |rows| => rows[i] * mask)
  }

  // ----- Masking one column drops the rank exactly when that column is spanned -----

  lemma MeetXorMask(a: Vec, b: Vec, mask: Vec)
    ensures Xor(a, b) * mask == Xor(a * mask, b * mask)
  {}

  /** The span of the masked rows is the masked span. */
  lemma {:induction false} MaskedSpan(rows: seq<Vec>, mask: Vec, v: Vec)
    ensures v in Span(Masked(rows, mask)) <==> exists x :: x in Span(rows) && x * mask == v
  {
    hide Xor, Shifted, Span;
    if rows == [] {
      SpanOfNothing();
      assert {} * mask == {};
      assert {} in Span(rows);
    } else {
      var n := |rows| - 1;
      var init, r := rows[..n], rows[n];
      SpanSplit(rows);
      SpanAdd(init, r);
      assert Masked(rows, mask) == Masked(init, mask) + [r * mask];
      SpanAdd(Masked(init, mask), r * mask);
      MaskedSpan(init, mask, v);
      MaskedSpan(init, mask, Xor(v, r * mask));
      if x :| x in Span(rows) && x * mask == v {
        if x !in Span(init) {
          MeetXorMask(x, r, mask);
          assert Xor(x, r) * mask == Xor(v, r * mask);
        }
      }
      if y :| y in Span(init) && y * mask == Xor(v, r * mask) {
        MeetXorMask(y, r, mask);
        XorTwice(v, r * mask);
        XorTwice(y, r);
        assert Xor(y, r) in Span(rows) && Xor(y, r) * mask == v;
      }
    }
  }

  /** Vectors below 34 that agree below 33 differ by nothing or by the last column. */
  lemma SameBelow(x: Vec, y: Vec)
    requires x <= Below(OUTPUT_COLUMN + 1) && y <= Below(OUTPUT_COLUMN + 1)
    requires x * Below(OUTPUT_COLUMN) == y * Below(OUTPUT_COLUMN)
    ensures x == y || Xor(x, y) == {OUTPUT_COLUMN}
  {
    forall k | k in Xor(x, y) ensures k == OUTPUT_COLUMN {
      assert k in x * Below(OUTPUT_COLUMN) <==> k in x && k < OUTPUT_COLUMN;
      assert k in y * Below(OUTPUT_COLUMN) <==> k in y && k < OUTPUT_COLUMN;
    }
    if Xor(x, y) == {} {
      forall k ensures k in x <==> k in y { assert k !in Xor(x, y); }
    }
  }

  lemma LimitParts(rows: seq<Vec>, limit: Vec)
    requires rows != [] && forall r :: r in rows ==> r <= limit
    ensures rows[|rows| - 1] <= limit && forall r :: r in rows[..|rows| - 1] ==> r <= limit
  {
    assert rows[|rows| - 1] in rows;
  }

  lemma XorBelow(a: Vec, b: Vec, limit: Vec)
    requires a <= limit && b <= limit
    ensures Xor(a, b) <= limit
  {}

  lemma {:induction false} SpanBelow(rows: seq<Vec>, limit: Vec, v: Vec)
    requires forall r :: r in rows ==> r <= limit
    requires v in Span(rows)
    ensures v <= limit
  {
    hide Shifted, Span, Xor;
    if rows == [] {
      SpanOfNothing();
    } else {
      var init, r := rows[..|rows| - 1], rows[|rows| - 1];
      LimitParts(rows, limit);
      SpanSplit(rows);
      SpanAdd(init, r);
      if v in Span(init) {
        SpanBelow(init, limit, v);
      } else {
        SpanBelow(init, limit, Xor(v, r));
        XorTwice(v, r);
        XorBelow(Xor(v, r), r, limit);
      }
    }
  }

  /** One row's effect on both ranks. */
  lemma MaskStep(init: seq<Vec>, r: Vec)
    requires forall x :: x in init ==> x <= Below(OUTPUT_COLUMN + 1)
    requires r <= Below(OUTPUT_COLUMN + 1)
    ensures var mask, column := Below(OUTPUT_COLUMN), {OUTPUT_COLUMN};
            var masked := Masked(init, mask);
            && (r in Span(init) ==> r * mask in Span(masked) && (column in Span(init + [r]) <==> column in Span(init)))
            && (r !in Span(init) && r * mask in Span(masked) ==> column !in Span(init) && column in Span(init + [r]))
            && (r * mask !in Span(masked) ==> (column in Span(init + [r]) <==> column in Span(init)))
  {
    hide Shifted, Span, Xor, Masked;
    var mask, column := Below(OUTPUT_COLUMN), {OUTPUT_COLUMN};
    MaskedSpan(init, mask, r * mask);
    SpanAdd(init, r);
    if r in Span(init) {
      SpanAddMember(init, r);
    } else if r * mask in Span(Masked(init, mask)) {
      var x :| x in Span(init) && x * mask == r * mask;
      SpanBelow(init, Below(OUTPUT_COLUMN + 1), x);
      SameBelow(x, r);
      XorAssoc(x, r, r);
      XorTwice(x, r);
      XorTwice(r, r);
      XorTwice(column, r);
      if column in Span(init) {
        SpanClosed(init, column, x);
        XorAssoc(x, x, r);
        XorTwice(x, {});
        XorTwice(r, {});
        XorTwice(column, x);
      }
    }
    if column in Span(init + [r]) && column !in Span(init) {
      MaskedColumn();
      MeetXorMask(column, r, mask);
      XorTwice(r * mask, {});
      assert Xor(column, r) * mask == r * mask;
    }
  }

  lemma MaskedColumn()
    ensures {OUTPUT_COLUMN} * Below(OUTPUT_COLUMN) == {}
  {}

  /** Dropping the output column lowers the rank by one exactly when that column alone is spanned. */
  lemma {:induction false} MaskedRank(rows: seq<Vec>)
    requires forall r :: r in rows ==> r <= Below(OUTPUT_COLUMN + 1)
    ensures Rank(Masked(rows, Below(OUTPUT_COLUMN))) == Rank(rows) - if {OUTPUT_COLUMN} in Span(rows) then 1 else 0
  {
    hide Xor, Shifted, Span, Rank;
    var mask := Below(OUTPUT_COLUMN);
    if rows == [] {
      SpanOfNothing();
      assert OUTPUT_COLUMN in {OUTPUT_COLUMN};
    } else {
      var n := |rows| - 1;
      var init, r := rows[..n], rows[n];
      LimitParts(rows, Below(OUTPUT_COLUMN + 1));
      SpanSplit(rows);
      MaskedRank(init);
      assert Masked(rows, mask) == Masked(init, mask) + [r * mask];
      SpanAdd(init, r);
      SpanAdd(Masked(init, mask), r * mask);
      MaskStep(init, r);
    }
  }

  // ----- Functionals on augmented rows are affine functions of the state bits -----

  /** The coefficient of state bit k sits in column k + 1. */
  function Coefficients(c: Vec): Vec { set k: nat | k in Below(STATE_BITS) && k + 1 in c }

  function Functional(f: AffineMap): Vec {
    (if f.constant then {0} else {}) + ShiftLeft(f.coefficients, 1) + {OUTPUT_COLUMN}
  }

  lemma AugmentedMeet(c: Vec, feature: Vec, output: bool)
    requires feature <= Below(STATE_BITS)
    ensures var low := if 0 in c then {0} else {};
            var high := if output && OUTPUT_COLUMN in c then {OUTPUT_COLUMN} else {};
            && c * Augmented(feature, output) == low + ShiftLeft(Coefficients(c) * feature, 1) + high
            && 0 !in ShiftLeft(Coefficients(c) * feature, 1) && OUTPUT_COLUMN !in ShiftLeft(Coefficients(c) * feature, 1)
  {
    var middle := ShiftLeft(Coefficients(c) * feature, 1);
    hide ShiftLeft;
    forall k: nat ensures k in middle <==> k > 0 && k in c && k - 1 in feature { InShift(Coefficients(c) * feature, 1, k); }
    forall k: nat ensures k in ShiftLeft(feature, 1) <==> k > 0 && k - 1 in feature { InShift(feature, 1, k); }
    var low := if 0 in c then {0} else {};
    var high := if output && OUTPUT_COLUMN in c then {OUTPUT_COLUMN} else {};
    forall k: nat ensures k in c * Augmented(feature, output) <==> k in low + middle + high {
      if k == 0 || k == OUTPUT_COLUMN {
        assert k !in middle;
      } else {
        assert k in Augmented(feature, output) <==> k in ShiftLeft(feature, 1);
        assert k in low + middle + high <==> k in middle;
      }
    }
    assert c * Augmented(feature, output) == low + middle + high;
  }

  /** At most one element of each of the outer parts, apart from the middle one. */
  lemma ThreeParts(low: bool, middle: Vec, high: bool)
    requires 0 !in middle && OUTPUT_COLUMN !in middle
    ensures |(if low then {0} else {}) + middle + (if high then {OUTPUT_COLUMN} else {})| % 2 == 1
       <==> (low != (|middle| % 2 == 1)) != high
  {
    var a: Vec := if low then {0} else {};
    var b: Vec := if high then {OUTPUT_COLUMN} else {};
    assert |a| == (if low then 1 else 0) && |b| == (if high then 1 else 0);
    assert a !! middle && (a + middle) !! b;
    assert |a + middle + b| == |a| + |middle| + |b|;
  }

  lemma DotAugmented(c: Vec, feature: Vec, output: bool)
    requires feature <= Below(STATE_BITS) && OUTPUT_COLUMN in c
    ensures Dot(c, Augmented(feature, output)) <==> ((0 in c) != Dot(Coefficients(c), feature)) != output
  {
    AugmentedMeet(c, feature, output);
    hide Augmented, Coefficients, ShiftLeft, Below;
    ShiftSize(Coefficients(c) * feature, 1);
    ThreeParts(0 in c, ShiftLeft(Coefficients(c) * feature, 1), output);
  }

  lemma FunctionalParts(f: AffineMap)
    requires f.coefficients <= Below(STATE_BITS)
    ensures var c := Functional(f);
            OUTPUT_COLUMN in c && AffineMap(0 in c, Coefficients(c)) == f
  {
    hide ShiftLeft;
    var c := Functional(f);
    forall k: nat ensures k in ShiftLeft(f.coefficients, 1) <==> k > 0 && k - 1 in f.coefficients { InShift(f.coefficients, 1, k); }
    forall k: nat ensures k in Coefficients(c) <==> k in f.coefficients {
      assert k + 1 in ShiftLeft(f.coefficients, 1) <==> (k + 1) - 1 in f.coefficients;
    }
  }

  lemma DotColumn(c: Vec)
    ensures Dot(c, {OUTPUT_COLUMN}) <==> OUTPUT_COLUMN in c
  {
    if OUTPUT_COLUMN in c {
      assert c * {OUTPUT_COLUMN} == {OUTPUT_COLUMN};
    } else {
      assert c * {OUTPUT_COLUMN} == {};
    }
  }

  lemma FeatureBelow(words: Words)
    ensures Feature(words) <= Below(STATE_BITS)
    ensures forall output :: Augmented(Feature(words), output) <= Below(OUTPUT_COLUMN + 1)
    ensures forall output :: Augmented(Feature(words), output) * Below(OUTPUT_COLUMN) == Design(Feature(words))
  {
    hide BitOf;
  }

  /** A functional through the output column kills the rows exactly when it is an affine fit. */
  lemma KillsIffFits(captures: seq<Words>, index: nat, bit: nat, c: Vec)
    requires index < 10 && bit < 8 && OUTPUT_COLUMN in c
    ensures Kills(c, Rows(captures, index, bit)) <==> Fits(captures, index, bit, AffineMap(0 in c, Coefficients(c)))
  {
    hide Dot, Augmented, Output, Feature;
    forall i | 0 <= i < |captures|
      ensures Dot(c, Rows(captures, index, bit)[i])
         <==> ((0 in c) != Dot(Coefficients(c), Feature(captures[i]))) != Output(captures[i], index, bit)
    {
      FeatureBelow(captures[i]);
      DotAugmented(c, Feature(captures[i]), Output(captures[i], index, bit));
    }
  }

  /** The output column is outside the span of the augmented rows exactly when some affine function fits. */
  lemma FitIffColumnOutside(captures: seq<Words>, index: nat, bit: nat)
    requires index < 10 && bit < 8
    ensures {OUTPUT_COLUMN} !in Span(Rows(captures, index, bit)) <==> SomeFit(captures, index, bit)
  {
    hide Span, Kills, Dot, Rows, Fits, Coefficients, Functional;
    var rows, column := Rows(captures, index, bit), {OUTPUT_COLUMN};
    OutsideIffSeparated(rows, column);
    if c :| Kills(c, rows) && Dot(c, column) {
      DotColumn(c);
      KillsIffFits(captures, index, bit, c);
    }
    if f :| Fits(captures, index, bit, f) {
      FitsBelow(captures, index, bit, f);
      var c := Functional(f);
      FunctionalParts(f);
      DotColumn(c);
      KillsIffFits(captures, index, bit, c);
      assert Kills(c, rows) && Dot(c, column);
    }
  }

  lemma FitsBelow(captures: seq<Words>, index: nat, bit: nat, f: AffineMap)
    requires index < 10 && bit < 8 && Fits(captures, index, bit, f)
    ensures f.coefficients <= Below(STATE_BITS)
  {}

  /** The rank comparison decides, for any number of captures, whether an affine fit exists. */
  lemma RankTestDecidesFit(captures: seq<Words>, index: nat, bit: nat)
    requires index < 10 && bit < 8
    ensures var rows := Rows(captures, index, bit);
            Rank(Masked(rows, Below(OUTPUT_COLUMN))) == Rank(rows) <==> SomeFit(captures, index, bit)
  {
    hide Span, Rank, SomeFit, Feature, Augmented;
    var rows := Rows(captures, index, bit);
    forall r | r in rows ensures r <= Below(OUTPUT_COLUMN + 1) {
      var i :| 0 <= i < |rows| && rows[i] == r;
      FeatureBelow(captures[i]);
    }
    MaskedRank(rows);
    FitIffColumnOutside(captures, index, bit);
  }

  // ----- The two ranks of the inputs -----

  function Designs(features: seq<Vec>): (rows: seq<Vec>)
    ensures |rows| == |features| && forall i :: 0 <= i < |rows| ==> rows[i] == Design(features[i])
  {
    seq(|features|, i requires 0 <= i < |features| => Design(features[i]))
  }

  function Differences(features: seq<Vec>): (rows: seq<Vec>)
    ensures |rows| == |features| && forall i :: 0 <= i < |rows| ==> rows[i] == Xor(features[i], features[0])
  {
    seq(|features|, i requires 0 <= i < |features| => Xor(features[i], features[0]))
  }

  function Features(captures: seq<Words>): (features: seq<Vec>)
    ensures |features| == |captures| && forall i :: 0 <= i < |features| ==> features[i] == Feature(captures[i])
  {
    seq(|captures|, i requires 0 <= i < |captures| => Feature(captures[i]))
  }

  /** Design rows add up to shifted differences, and a shifted row with a design row to a design row. */
  lemma DesignXor(v: Vec, f: Vec)
    ensures Xor(ShiftLeft(v, 1), Design(f)) == Design(Xor(v, f))
    ensures Xor(Design(v), Design(f)) == ShiftLeft(Xor(v, f), 1)
  {
    hide ShiftLeft;
    forall k: nat
      ensures k in ShiftLeft(v, 1) <==> k >= 1 && k - 1 in v
      ensures k in ShiftLeft(f, 1) <==> k >= 1 && k - 1 in f
      ensures k in ShiftLeft(Xor(v, f), 1) <==> k >= 1 && k - 1 in Xor(v, f)
    {
      InShift(v, 1, k);
      InShift(f, 1, k);
      InShift(Xor(v, f), 1, k);
    }
  }

  lemma XorRotate(v: Vec, b: Vec, f: Vec)
    ensures Xor(Xor(v, Xor(f, b)), b) == Xor(v, f)
    ensures Xor(Xor(v, b), f) == Xor(v, Xor(f, b))
  {}

  lemma DesignInjective(v: Vec, f: Vec)
    ensures Design(v) == Design(f) <==> v == f
    ensures ShiftLeft(v, 1) == {} <==> v == {}
    ensures ShiftLeft(v, 1) != Design(f) && Design(v) != {}
  {
    hide ShiftLeft;
    forall k: nat
      ensures k in ShiftLeft(v, 1) <==> k >= 1 && k - 1 in v
      ensures k in ShiftLeft(f, 1) <==> k >= 1 && k - 1 in f
    {
      InShift(v, 1, k);
      InShift(f, 1, k);
    }
    assert 0 in Design(f) && 0 in Design(v);
    if Design(v) == Design(f) {
      forall k: nat ensures k in v <==> k in f {
        assert k + 1 in ShiftLeft(v, 1) <==> (k + 1) - 1 in v;
        assert k + 1 in ShiftLeft(f, 1) <==> (k + 1) - 1 in f;
        assert k + 1 in Design(v) <==> k + 1 in ShiftLeft(v, 1);
      }
    }
    if v != {} {
      var k :| k in v;
      assert (k + 1) - 1 in v && k + 1 in ShiftLeft(v, 1);
    }
    if ShiftLeft(v, 1) != {} {
      var k :| k in ShiftLeft(v, 1);
      assert k - 1 in v;
    }
  }

  lemma XorIsOther(v: Vec, b: Vec)
    ensures Xor(v, b) == b <==> v == {}
    ensures Xor(v, b) == {} <==> v == b
    ensures Xor({}, b) == b
  {
    if Xor(v, b) == b {
      forall k ensures k !in v {}
    }
    if Xor(v, b) == {} {
      forall k ensures k in v <==> k in b { assert k !in Xor(v, b); }
    }
  }

  /** The span of one row. */
  lemma SpanOfOne(r: Vec, v: Vec)
    ensures v in Span([r]) <==> v == {} || v == r
    ensures Rank([r]) == if r == {} then 0 else 1
  {
    hide Xor, Shifted;
    SpanOfNothing();
    SpanAdd([], r);
    assert [] + [r] == [r];
    XorIsOther(v, r);
  }

  /** The differences span what the design rows span without the constant column, and miss one dimension of it. */
  lemma {:induction false} HomogeneousSpan(features: seq<Vec>, v: Vec)
    requires features != []
    ensures v in Span(Differences(features)) <==> ShiftLeft(v, 1) in Span(Designs(features))
    ensures v in Span(Differences(features)) <==> Design(Xor(v, features[0])) in Span(Designs(features))
  {
    hide Xor, Shifted, Span, Design, ShiftLeft, Designs, Differences;
    var n, b := |features| - 1, features[0];
    XorIsOther(b, b);
    if n == 0 {
      assert Differences(features) == [{}] && Designs(features) == [Design(b)];
      SpanOfOne({}, v);
      SpanOfOne(Design(b), ShiftLeft(v, 1));
      SpanOfOne(Design(b), Design(Xor(v, b)));
      DesignInjective(v, b);
      DesignInjective(Xor(v, b), b);
      XorIsOther(v, b);
    } else {
      var init, f := features[..n], features[n];
      assert Differences(features) == Differences(init) + [Xor(f, b)];
      assert Designs(features) == Designs(init) + [Design(f)];
      SpanAdd(Differences(init), Xor(f, b));
      SpanAdd(Designs(init), Design(f));
      HomogeneousSpan(init, v);
      HomogeneousSpan(init, Xor(v, Xor(f, b)));
      DesignXor(v, f);
      DesignXor(Xor(v, b), f);
      XorRotate(v, b, f);
    }
  }

  /** The affine design rank is one more than the rank of the differences to the first capture. */
  lemma {:induction false} DesignRank(features: seq<Vec>)
    requires features != []
    ensures Rank(Designs(features)) == Rank(Differences(features)) + 1
  {
    hide Xor, Shifted, Span, Rank, Design, ShiftLeft, Designs, Differences;
    var n, b := |features| - 1, features[0];
    if n == 0 {
      XorIsOther(b, b);
      assert Differences(features) == [{}] && Designs(features) == [Design(b)];
      SpanOfOne({}, {});
      SpanOfOne(Design(b), {});
      DesignInjective(b, b);
    } else {
      var init, f := features[..n], features[n];
      DesignRank(init);
      assert Differences(features) == Differences(init) + [Xor(f, b)];
      assert Designs(features) == Designs(init) + [Design(f)];
      SpanAdd(Differences(init), Xor(f, b));
      SpanAdd(Designs(init), Design(f));
      HomogeneousSpan(init, Xor(f, b));
      XorTwice(f, b);
    }
  }

  // ----- The summary -----

  datatype Summary = Summary(inputBitRank: nat, affineDesignRank: nat, observedRows: nat, outputBitsConsistent: seq<bool>)

  /** _affine_fit_summary; without captures it raises. */
  method AffineFitSummary(captures: seq<Words>, index: nat) returns (r: Option<Summary>)
    requires index < 10
    ensures r.None? <==> captures == []
    ensures r.Some? ==> |r.value.outputBitsConsistent| == 8 && r.value.observedRows == |captures|
    ensures r.Some? ==> forall bit :: 0 <= bit < 8 ==> (r.value.outputBitsConsistent[bit] <==> SomeFit(captures, index, bit))
    ensures r.Some? ==> r.value.affineDesignRank == Rank(Designs(Features(captures)))
    ensures r.Some? ==> r.value.inputBitRank == Rank(Differences(Features(captures))) == r.value.affineDesignRank - 1
  {
    hide Span, Rank, SomeFit, Feature, Output, Augmented, Design, Designs, Differences, Features;
    if captures == [] {
      return None;
    }
    var features: seq<Vec> := [];
    for i := 0 to |captures|
      invariant |features| == i && forall j :: 0 <= j < i ==> features[j] == Feature(captures[j])
    {
      var feature := StateFeatureVector(captures[i]);
      features := features + [feature];
    }
    assert features == Features(captures);
    var consistent: seq<bool> := [];
    for bit := 0 to 8
      invariant |consistent| == bit
      invariant forall b :: 0 <= b < bit ==> (consistent[b] <==> SomeFit(captures, index, b))
    {
      var rows := Rows(captures, index, bit);
      var coefficientRank := Gf2Rank(Masked(rows, Below(OUTPUT_COLUMN)));
      var augmentedRank := Gf2Rank(rows);
      RankTestDecidesFit(captures, index, bit);
      consistent := consistent + [coefficientRank == augmentedRank];
    }
    var inputRank := Gf2Rank(Differences(features));
    var designRank := Gf2Rank(Designs(features));
    DesignRank(features);
    return Some(Summary(inputRank, designRank, |captures|, consistent));
  }
}
