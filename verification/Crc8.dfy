/**
  _reflect and _crc8 of tools/proflame_extended/analyze_issue_15.py.  Registers and polynomials over
  GF(2) are sets of exponents, as in `Gf2`.
 */
module Crc8 {
  import opened Gf2

  /** The low eight bits. */
  predicate IsByte(v: Vec) { v <= Below(8) }

  // ----- Reflection -----

  /** The bits of `value` below `width`, in reverse. */
  function Reflected(value: Vec, width: nat): Vec {
    set k: nat | k in Below(width) && width - 1 - k in value
  }

  /** _reflect */
  method Reflect(value: Vec, width: nat) returns (reflected: Vec)
    ensures reflected == Reflected(value, width)
  {
    reflected := {};
    for bitIndex := 0 to width
      invariant reflected == Reflected(value, bitIndex)
    {
      ReflectStep(value, bitIndex);
      reflected := ShiftLeft(reflected, 1) + if bitIndex in value then {0} else {};
    }
  }

  lemma ReflectStep(value: Vec, n: nat)
    ensures Reflected(value, n + 1) == ShiftLeft(Reflected(value, n), 1) + if n in value then {0} else {}
  {
    hide ShiftLeft;
    var next := ShiftLeft(Reflected(value, n), 1) + if n in value then {0} else {};
    forall k: nat ensures k in Reflected(value, n + 1) <==> k in next { InShift(Reflected(value, n), 1, k); }
  }

  /** Reflecting twice keeps exactly the bits below the width: an involution on values that fit. */
  lemma ReflectTwice(value: Vec, width: nat)
    ensures Reflected(Reflected(value, width), width) == value * Below(width)
  {
    forall k: nat ensures k in Reflected(Reflected(value, width), width) <==> k in value * Below(width) {
      if k < width {
        var j: nat := width - 1 - k;
        assert j in Below(width) && width - 1 - j == k;
        assert j in Reflected(value, width) <==> k in value;
      }
    }
  }

  lemma ReflectXor(a: Vec, b: Vec, width: nat)
    ensures Reflected(Xor(a, b), width) == Xor(Reflected(a, width), Reflected(b, width))
  {}

  // ----- The register -----

  /** One shift of the register: times x, reduced by the polynomial when a bit falls out. */
  function ShiftStep(r: Vec, polynomial: Vec): Vec {
    if 7 in r then Xor(ShiftLeft(r, 1), polynomial) * Below(8) else ShiftLeft(r, 1) * Below(8)
  }

  function ShiftSteps(r: Vec, polynomial: Vec, n: nat): Vec {
    if n == 0 then r else ShiftStep(ShiftSteps(r, polynomial, n - 1), polynomial)
  }

  /** The register after feeding the bytes. */
  function Register(initial: Vec, data: seq<Vec>, polynomial: Vec): Vec {
    if data == [] then initial
    else ShiftSteps(Xor(Register(initial, data[..|data| - 1], polynomial), data[|data| - 1]), polynomial, 8)
  }

  function ReflectedAll(data: seq<Vec>, reflect: bool): (r: seq<Vec>)
    ensures |r| == |data| && forall i :: 0 <= i < |r| ==> r[i] == if reflect then Reflected(data[i], 8) else data[i]
  {
    seq(|data|, i requires 0 <= i < |data| => if reflect then Reflected(data[i], 8) else data[i])
  }

  datatype Parameters = Parameters(polynomial: Vec, initial: Vec, reflectInput: bool, reflectOutput: bool, xorOutput: Vec)

  function Finish(register: Vec, p: Parameters): Vec {
    Xor(if p.reflectOutput then Reflected(register, 8) else register, p.xorOutput)
  }

  function Crc(data: seq<Vec>, p: Parameters): Vec {
    Finish(Register(p.initial, ReflectedAll(data, p.reflectInput), p.polynomial), p)
  }

  /** _crc8 */
  method Crc8Of(data: seq<Vec>, p: Parameters) returns (crc: Vec)
    ensures crc == Crc(data, p)
  {
    hide Xor, ShiftStep, Reflected;
    var remainder := p.initial;
    ghost var fed := ReflectedAll(data, p.reflectInput);
    for i := 0 to |data|
      invariant remainder == Register(p.initial, fed[..i], p.polynomial)
    {
      var value := data[i];
      if p.reflectInput {
        value := Reflect(value, 8);
      }
      remainder := Xor(remainder, value);
      ghost var before := remainder;
      for n := 0 to 8
        invariant remainder == ShiftSteps(before, p.polynomial, n)
      {
        remainder := ShiftStep(remainder, p.polynomial);
      }
      assert fed[..i + 1][..i] == fed[..i];
    }
    assert fed[..|data|] == fed;
    if p.reflectOutput {
      remainder := Reflect(remainder, 8);
    }
    crc := Xor(remainder, p.xorOutput);
  }

  /** Feeding a concatenation is feeding the second part from the register of the first. */
  lemma {:induction false} RegisterConcat(initial: Vec, a: seq<Vec>, b: seq<Vec>, polynomial: Vec)
    ensures Register(initial, a + b, polynomial) == Register(Register(initial, a, polynomial), b, polynomial)
  {
    hide Xor, ShiftSteps;
    if b == [] {
      assert a + b == a;
    } else {
      RegisterConcat(initial, a, b[..|b| - 1], polynomial);
      assert (a + b)[..|a + b| - 1] == a + b[..|b| - 1];
    }
  }

  // ----- Linearity -----

  lemma ShiftXor(a: Vec, b: Vec, n: nat)
    ensures ShiftLeft(Xor(a, b), n) == Xor(ShiftLeft(a, n), ShiftLeft(b, n))
  {
    hide ShiftLeft;
    forall k: nat ensures k in ShiftLeft(Xor(a, b), n) <==> k in Xor(ShiftLeft(a, n), ShiftLeft(b, n)) {
      InShift(Xor(a, b), n, k);
      InShift(a, n, k);
      InShift(b, n, k);
    }
  }

  lemma ShiftStepXor(a: Vec, b: Vec, polynomial: Vec)
    ensures ShiftStep(Xor(a, b), polynomial) == Xor(ShiftStep(a, polynomial), ShiftStep(b, polynomial))
  {
    hide ShiftLeft;
    ShiftXor(a, b, 1);
  }

  lemma {:induction false} ShiftStepsXor(a: Vec, b: Vec, polynomial: Vec, n: nat)
    ensures ShiftSteps(Xor(a, b), polynomial, n) == Xor(ShiftSteps(a, polynomial, n), ShiftSteps(b, polynomial, n))
  {
    hide Xor, ShiftStep;
    if n > 0 {
      ShiftStepsXor(a, b, polynomial, n - 1);
      ShiftStepXor(ShiftSteps(a, polynomial, n - 1), ShiftSteps(b, polynomial, n - 1), polynomial);
    }
  }

  function Xored(a: seq<Vec>, b: seq<Vec>): (r: seq<Vec>)
    requires |a| == |b|
    ensures |r| == |a| && forall i :: 0 <= i < |r| ==> r[i] == Xor(a[i], b[i])
  {
    seq(|a|, i requires 0 <= i < |a| => Xor(a[i], b[i]))
  }

  lemma XorShuffle(a: Vec, b: Vec, c: Vec, d: Vec)
    ensures Xor(Xor(a, b), Xor(c, d)) == Xor(Xor(a, c), Xor(b, d))
  {}

  /** The register is linear in the initial value and the data together. */
  lemma {:induction false} RegisterLinear(i: Vec, a: seq<Vec>, j: Vec, b: seq<Vec>, polynomial: Vec)
    requires |a| == |b|
    ensures Register(Xor(i, j), Xored(a, b), polynomial) == Xor(Register(i, a, polynomial), Register(j, b, polynomial))
  {
    hide Xor, ShiftSteps;
    if a != [] {
      var n := |a| - 1;
      RegisterLinear(i, a[..n], j, b[..n], polynomial);
      assert Xored(a, b)[..n] == Xored(a[..n], b[..n]);
      var ra, rb := Register(i, a[..n], polynomial), Register(j, b[..n], polynomial);
      XorShuffle(ra, rb, a[n], b[n]);
      ShiftStepsXor(Xor(ra, a[n]), Xor(rb, b[n]), polynomial, 8);
    }
  }

  lemma TripleXor(a: Vec, b: Vec, c: Vec, x: Vec)
    ensures Xor(Xor(Xor(a, b), c), x) == Xor(Xor(Xor(a, x), Xor(b, x)), Xor(c, x))
  {}

  /** Over inputs of equal length the checksum is affine: it commutes with the XOR of three inputs. */
  lemma CrcAffine(a: seq<Vec>, b: seq<Vec>, c: seq<Vec>, p: Parameters)
    requires |a| == |b| == |c|
    ensures Crc(Xored(Xored(a, b), c), p) == Xor(Xor(Crc(a, p), Crc(b, p)), Crc(c, p))
  {
    hide Xor, Reflected, Register;
    var fa, fb, fc := ReflectedAll(a, p.reflectInput), ReflectedAll(b, p.reflectInput), ReflectedAll(c, p.reflectInput);
    forall i | 0 <= i < |a|
      ensures Reflected(Xor(Xor(a[i], b[i]), c[i]), 8) == Xor(Xor(Reflected(a[i], 8), Reflected(b[i], 8)), Reflected(c[i], 8))
    {
      ReflectXor(Xor(a[i], b[i]), c[i], 8);
      ReflectXor(a[i], b[i], 8);
    }
    assert ReflectedAll(Xored(Xored(a, b), c), p.reflectInput) == Xored(Xored(fa, fb), fc);
    var i0 := p.initial;
    XorTwice(i0, i0);
    XorTwice({}, i0);
    XorTwice(i0, {});
    RegisterLinear(i0, fa, i0, fb, p.polynomial);
    RegisterLinear({}, Xored(fa, fb), i0, fc, p.polynomial);
    var ra, rb, rc := Register(i0, fa, p.polynomial), Register(i0, fb, p.polynomial), Register(i0, fc, p.polynomial);
    ReflectXor(Xor(ra, rb), rc, 8);
    ReflectXor(ra, rb, 8);
    if p.reflectOutput {
      TripleXor(Reflected(ra, 8), Reflected(rb, 8), Reflected(rc, 8), p.xorOutput);
    } else {
      TripleXor(ra, rb, rc, p.xorOutput);
    }
  }

  // ----- Polynomial division -----

  /** x^8 plus the polynomial's low terms. */
  function Generator(polynomial: Vec): Vec { {8} + polynomial }

  /** The first n multiples G, xG, ..., x^(n-1) G. */
  function Multiples(generator: Vec, n: nat): (rows: seq<Vec>)
    ensures |rows| == n && forall i :: 0 <= i < n ==> rows[i] == ShiftLeft(generator, i)
  {
    seq(n, i requires 0 <= i < n => ShiftLeft(generator, i))
  }

  /** a and b differ by a combination of G, xG, ..., x^(n-1) G, that is, by a multiple of G. */
  ghost predicate CongruentBelow(a: Vec, b: Vec, generator: Vec, n: nat) {
    Xor(a, b) in Span(Multiples(generator, n))
  }

  ghost predicate Congruent(a: Vec, b: Vec, generator: Vec) {
    exists n: nat :: CongruentBelow(a, b, generator, n)
  }

  /** The polynomial of the whole message: each byte is added below what came before, then moved up by x^8. */
  function Message(initial: Vec, data: seq<Vec>): Vec {
    if data == [] then initial
    else ShiftLeft(Xor(Message(initial, data[..|data| - 1]), data[|data| - 1]), 8)
  }

  lemma MultiplesGrow(generator: Vec, m: nat, n: nat, v: Vec)
    requires m <= n && v in Span(Multiples(generator, m))
    ensures v in Span(Multiples(generator, n))
  {
    hide Span, ShiftLeft;
    forall r | r in Multiples(generator, m) ensures r in Span(Multiples(generator, n)) {
      var i :| 0 <= i < m && Multiples(generator, m)[i] == r;
      assert Multiples(generator, n)[i] == r;
      SpanHasRows(Multiples(generator, n), r);
    }
    SpanIncluded(Multiples(generator, m), Multiples(generator, n));
  }

  lemma CongruentSelf(a: Vec, generator: Vec)
    ensures Congruent(a, a, generator)
  {
    SpanHasZero(Multiples(generator, 0));
    XorTwice(a, a);
    assert CongruentBelow(a, a, generator, 0);
  }

  lemma CongruentTransitive(a: Vec, b: Vec, c: Vec, generator: Vec)
    requires Congruent(a, b, generator) && Congruent(b, c, generator)
    ensures Congruent(a, c, generator)
  {
    hide Span, Xor, Multiples;
    var m: nat :| CongruentBelow(a, b, generator, m);
    var n: nat :| CongruentBelow(b, c, generator, n);
    var k := m + n;
    MultiplesGrow(generator, m, k, Xor(a, b));
    MultiplesGrow(generator, n, k, Xor(b, c));
    SpanClosed(Multiples(generator, k), Xor(a, b), Xor(b, c));
    XorAssoc(a, b, Xor(b, c));
    XorAssoc(b, b, c);
    XorTwice(b, b);
    XorTwice(c, {});
    assert CongruentBelow(a, c, generator, k);
  }

  lemma CongruentXor(a: Vec, b: Vec, c: Vec, generator: Vec)
    requires Congruent(a, b, generator)
    ensures Congruent(Xor(a, c), Xor(b, c), generator)
  {
    hide Span, Xor, Multiples;
    var n: nat :| CongruentBelow(a, b, generator, n);
    XorShuffle(a, c, b, c);
    XorTwice(c, c);
    XorTwice(Xor(a, b), {});
    assert CongruentBelow(Xor(a, c), Xor(b, c), generator, n);
  }

  /** Moving a combination of multiples up by one gives a combination of multiples. */
  lemma {:induction false} ShiftedMultiple(generator: Vec, n: nat, v: Vec)
    requires v in Span(Multiples(generator, n))
    ensures ShiftLeft(v, 1) in Span(Multiples(generator, n + 1))
  {
    hide Span, Xor, ShiftLeft;
    var more := Multiples(generator, n + 1);
    if n == 0 {
      SpanOfNothing();
      assert Multiples(generator, 0) == [];
      ShiftNothing(1);
      SpanHasZero(more);
    } else {
      var rows := Multiples(generator, n);
      assert rows[..n - 1] == Multiples(generator, n - 1);
      SpanSplit(rows);
      SpanAdd(Multiples(generator, n - 1), rows[n - 1]);
      var last := ShiftLeft(generator, n - 1);
      ShiftShift(generator, n - 1);
      assert more[n] == ShiftLeft(generator, n);
      SpanHasRows(more, more[n]);
      if v in Span(Multiples(generator, n - 1)) {
        ShiftedMultiple(generator, n - 1, v);
        MultiplesGrow(generator, n, n + 1, ShiftLeft(v, 1));
      } else {
        ShiftedMultiple(generator, n - 1, Xor(v, last));
        MultiplesGrow(generator, n, n + 1, ShiftLeft(Xor(v, last), 1));
        ShiftXor(v, last, 1);
        SpanClosed(more, ShiftLeft(Xor(v, last), 1), more[n]);
        XorTwice(ShiftLeft(v, 1), ShiftLeft(last, 1));
      }
    }
  }

  lemma ShiftNothing(n: nat)
    ensures ShiftLeft({}, n) == {}
  {}

  lemma ShiftShift(v: Vec, n: nat)
    ensures ShiftLeft(ShiftLeft(v, n), 1) == ShiftLeft(v, n + 1)
  {
    hide ShiftLeft;
    forall k: nat ensures k in ShiftLeft(ShiftLeft(v, n), 1) <==> k in ShiftLeft(v, n + 1) {
      InShift(ShiftLeft(v, n), 1, k);
      InShift(v, n + 1, k);
      if k > 0 {
        InShift(v, n, k - 1);
      }
    }
  }

  lemma CongruentShift(a: Vec, b: Vec, generator: Vec)
    requires Congruent(a, b, generator)
    ensures Congruent(ShiftLeft(a, 1), ShiftLeft(b, 1), generator)
  {
    hide Span, Xor, Multiples, ShiftLeft;
    var n: nat :| CongruentBelow(a, b, generator, n);
    ShiftedMultiple(generator, n, Xor(a, b));
    ShiftXor(a, b, 1);
    assert CongruentBelow(ShiftLeft(a, 1), ShiftLeft(b, 1), generator, n + 1);
  }

  /** One register shift is multiplication by x modulo the generator. */
  lemma StepIsTimesX(r: Vec, polynomial: Vec)
    requires IsByte(r) && IsByte(polynomial)
    ensures IsByte(ShiftStep(r, polynomial))
    ensures Congruent(ShiftLeft(r, 1), ShiftStep(r, polynomial), Generator(polynomial))
  {
    hide Span, ShiftLeft;
    var g := Generator(polynomial);
    var moved := ShiftLeft(r, 1);
    forall k: nat ensures k in moved <==> k > 0 && k - 1 in r { InShift(r, 1, k); }
    if 7 in r {
      assert Xor(moved, Xor(moved, polynomial) * Below(8)) == g;
      forall k: nat ensures k in ShiftLeft(g, 0) <==> k in g { InShift(g, 0, k); }
      assert Multiples(g, 1)[0] == g;
      SpanHasRows(Multiples(g, 1), g);
      assert CongruentBelow(moved, ShiftStep(r, polynomial), g, 1);
    } else {
      assert ShiftStep(r, polynomial) == moved;
      CongruentSelf(moved, g);
    }
  }

  lemma {:induction false} StepsAreTimesPower(r: Vec, polynomial: Vec, n: nat)
    requires IsByte(r) && IsByte(polynomial)
    ensures IsByte(ShiftSteps(r, polynomial, n))
    ensures Congruent(ShiftLeft(r, n), ShiftSteps(r, polynomial, n), Generator(polynomial))
  {
    hide Congruent, ShiftStep, IsByte, ShiftLeft, Generator;
    var g := Generator(polynomial);
    if n == 0 {
      forall k: nat ensures k in ShiftLeft(r, 0) <==> k in r { InShift(r, 0, k); }
      assert ShiftLeft(r, 0) == r;
      CongruentSelf(r, g);
    } else {
      StepsAreTimesPower(r, polynomial, n - 1);
      var before := ShiftSteps(r, polynomial, n - 1);
      CongruentShift(ShiftLeft(r, n - 1), before, g);
      ShiftShift(r, n - 1);
      StepIsTimesX(before, polynomial);
      CongruentTransitive(ShiftLeft(r, n), ShiftLeft(before, 1), ShiftSteps(r, polynomial, n), g);
    }
  }

  lemma XorIsByte(a: Vec, b: Vec)
    requires IsByte(a) && IsByte(b)
    ensures IsByte(Xor(a, b))
  {}

  lemma {:induction false} CongruentShiftBy(a: Vec, b: Vec, generator: Vec, n: nat)
    requires Congruent(a, b, generator)
    ensures Congruent(ShiftLeft(a, n), ShiftLeft(b, n), generator)
  {
    hide Congruent, ShiftLeft;
    if n == 0 {
      forall k: nat ensures k in ShiftLeft(a, 0) <==> k in a { InShift(a, 0, k); }
      forall k: nat ensures k in ShiftLeft(b, 0) <==> k in b { InShift(b, 0, k); }
      assert ShiftLeft(a, 0) == a && ShiftLeft(b, 0) == b;
    } else {
      CongruentShiftBy(a, b, generator, n - 1);
      CongruentShift(ShiftLeft(a, n - 1), ShiftLeft(b, n - 1), generator);
      ShiftShift(a, n - 1);
      ShiftShift(b, n - 1);
    }
  }

  /** The register is congruent to the message polynomial and has degree below eight. */
  lemma {:induction false} RegisterIsRemainder(initial: Vec, data: seq<Vec>, polynomial: Vec)
    requires IsByte(initial) && IsByte(polynomial) && forall i :: 0 <= i < |data| ==> IsByte(data[i])
    ensures IsByte(Register(initial, data, polynomial))
    ensures Congruent(Message(initial, data), Register(initial, data, polynomial), Generator(polynomial))
  {
    hide Congruent, ShiftSteps, IsByte, ShiftLeft, Xor, Generator;
    var g := Generator(polynomial);
    if data == [] {
      CongruentSelf(initial, g);
    } else {
      var n := |data| - 1;
      var m, r := Message(initial, data[..n]), Register(initial, data[..n], polynomial);
      RegisterIsRemainder(initial, data[..n], polynomial);
      CongruentXor(m, r, data[n], g);
      CongruentShiftBy(Xor(m, data[n]), Xor(r, data[n]), g, 8);
      XorIsByte(r, data[n]);
      StepsAreTimesPower(Xor(r, data[n]), polynomial, 8);
      CongruentTransitive(Message(initial, data), ShiftLeft(Xor(r, data[n]), 8), Register(initial, data, polynomial), g);
    }
  }

  lemma MultiplesEchelon(polynomial: Vec, n: nat)
    requires IsByte(polynomial)
    ensures Echelon(Multiples(Generator(polynomial), n))
    ensures forall i: nat :: i < n ==> Multiples(Generator(polynomial), n)[i] != {} && Lead(Multiples(Generator(polynomial), n)[i]) == 8 + i
  {
    hide ShiftLeft;
    var rows := Multiples(Generator(polynomial), n);
    forall i: nat | i < n ensures rows[i] != {} && Lead(rows[i]) == 8 + i {
      InShift(Generator(polynomial), i, 8 + i);
      forall k: nat | k in rows[i] ensures k <= 8 + i { InShift(Generator(polynomial), i, k); }
    }
  }

  /** A remainder of degree below eight is unique, so the register is the remainder of the division. */
  lemma RemainderUnique(m: Vec, r: Vec, s: Vec, polynomial: Vec)
    requires IsByte(polynomial) && IsByte(r) && IsByte(s)
    requires Congruent(m, r, Generator(polynomial)) && Congruent(m, s, Generator(polynomial))
    ensures r == s
  {
    hide Span, Multiples;
    var g := Generator(polynomial);
    var i: nat :| CongruentBelow(m, r, g, i);
    var j: nat :| CongruentBelow(m, s, g, j);
    var n := i + j;
    MultiplesGrow(g, i, n, Xor(m, r));
    MultiplesGrow(g, j, n, Xor(m, s));
    SpanClosed(Multiples(g, n), Xor(m, r), Xor(m, s));
    assert Xor(Xor(m, r), Xor(m, s)) == Xor(r, s);
    MultiplesEchelon(polynomial, n);
    XorIsByte(r, s);
    if Xor(r, s) != {} {
      LeadInSpan(Multiples(g, n), Xor(r, s));
    }
    assert r == s by { XorTwice(r, s); assert Xor({}, s) == s; }
  }

  // ----- The checksum -----

  /** The bytes that are fed in: as they are, or each with its eight bits reversed. */
  ghost predicate IsFed(data: seq<Vec>, reflect: bool, fed: seq<Vec>) {
    && |fed| == |data|
    && forall i: nat, k: nat {:trigger k in fed[i]} ::
         i < |data| ==> (k in fed[i] <==> if reflect then k < 8 && 7 - k in data[i] else k in data[i])
  }

  lemma FedIs(data: seq<Vec>, reflect: bool, fed: seq<Vec>)
    requires IsFed(data, reflect, fed) && forall i :: 0 <= i < |data| ==> IsByte(data[i])
    ensures fed == ReflectedAll(data, reflect)
    ensures forall i :: 0 <= i < |fed| ==> IsByte(fed[i])
  {
    forall i: nat | i < |fed| ensures fed[i] == ReflectedAll(data, reflect)[i] && IsByte(fed[i]) {
      forall k: nat ensures k in fed[i] <==> k in ReflectedAll(data, reflect)[i] { ReflectedBit(data[i], k); }
      assert forall k: nat :: k in fed[i] ==> k in Below(8);
    }
  }

  /** Bit k of the checksum, from the remainder. */
  predicate FinalBit(r: Vec, p: Parameters, k: nat) {
    (if p.reflectOutput then k < 8 && 7 - k in r else k in r) != (k in p.xorOutput)
  }

  /**
    The whole checksum: the remainder of the message by the generator, with its eight bits reversed if asked, and then the final XOR,
    bit by bit.
   */
  lemma CrcMeaning(data: seq<Vec>, p: Parameters, fed: seq<Vec>)
    requires IsByte(p.initial) && IsByte(p.polynomial) && forall i :: 0 <= i < |data| ==> IsByte(data[i])
    requires IsFed(data, p.reflectInput, fed)
    ensures exists r: Vec ::
              && IsByte(r) && Congruent(Message(p.initial, fed), r, {8} + p.polynomial)
              && forall k: nat :: k in Crc(data, p) <==> FinalBit(r, p, k)
  {
    hide IsByte, Congruent, Message, Register;
    FedIs(data, p.reflectInput, fed);
    var r := Register(p.initial, fed, p.polynomial);
    RegisterIsRemainder(p.initial, fed, p.polynomial);
    FinishBits(r, p);
    assert Crc(data, p) == Finish(r, p);
  }

  lemma FinishBits(r: Vec, p: Parameters)
    ensures forall k: nat :: k in Finish(r, p) <==> FinalBit(r, p, k)
  {
    hide Reflected;
    forall k: nat ensures k in Finish(r, p) <==> FinalBit(r, p, k) {
      ReflectedBit(r, k);
      XorBit(if p.reflectOutput then Reflected(r, 8) else r, p.xorOutput, k);
    }
  }

  lemma XorBit(a: Vec, b: Vec, k: nat)
    ensures k in Xor(a, b) <==> (k in a) != (k in b)
  {}

  lemma ReflectedBit(v: Vec, k: nat)
    ensures k in Reflected(v, 8) <==> k < 8 && 7 - k in v
  {
    assert k in Below(8) <==> k < 8;
  }
}
