/**
  Linear algebra over GF(2) as in tools/proflame_extended/analyze_issue_15.py.  A non-negative integer
  used as a bit vector is the set of positions of its one bits, so `^` is symmetric difference, `& mask`
  is intersection, and `bit_length() - 1` is the largest element.
 */
module Gf2 {

  type Vec = set<nat>

  function Xor(a: Vec, b: Vec): Vec { (a - b) + (b - a) }

  /** `value << n` */
  function ShiftLeft(v: Vec, n: nat): Vec { set k | k in v :: k + n }

  lemma InShift(v: Vec, n: nat, k: nat)
    ensures k in ShiftLeft(v, n) <==> k >= n && k - n in v
  {
    if k >= n && k - n in v {
      assert k == (k - n) + n;
    }
  }

  /** `(1 << n) - 1` */
  function Below(n: nat): (v: Vec)
    ensures forall k: nat :: k in v <==> k < n
  {
    if n == 0 then {} else Below(n - 1) + {n - 1}
  }

  lemma {:induction false} ShiftSize(v: Vec, n: nat)
    ensures |ShiftLeft(v, n)| == |v|
  {
    hide ShiftLeft;
    if v != {} {
      var x :| x in v;
      var rest := v - {x};
      ShiftSize(rest, n);
      forall k ensures k in ShiftLeft(v, n) <==> k in ShiftLeft(rest, n) + {x + n} {
        if k >= 0 {
          InShift(v, n, k);
          InShift(rest, n, k);
        }
      }
      assert ShiftLeft(v, n) == ShiftLeft(rest, n) + {x + n};
      InShift(rest, n, x + n);
    } else {
      forall k: nat ensures k !in ShiftLeft(v, n) { InShift(v, n, k); }
    }
  }

  // ----- The leading bit -----

  ghost predicate IsTop(v: Vec, m: nat) {
    m in v && forall x :: x in v ==> x <= m
  }

  lemma {:induction false} LeadExists(v: Vec)
    requires v != {}
    ensures exists m :: IsTop(v, m)
  {
    var x :| x in v;
    var rest := v - {x};
    assert forall y :: y in v ==> y == x || y in rest;
    if rest == {} {
      assert IsTop(v, x);
    } else {
      LeadExists(rest);
      var m :| IsTop(rest, m);
      assert IsTop(v, if x < m then m else x);
    }
  }

  /** `value.bit_length() - 1` */
  function Lead(v: Vec): (m: nat)
    requires v != {}
    ensures m in v && forall x :: x in v ==> x <= m
  {
    assert exists m :: m in v && forall x :: x in v ==> x <= m by {
      LeadExists(v);
      var m :| IsTop(v, m);
    }
    var m :| m in v && forall x :: x in v ==> x <= m;
    m
  }

  // ----- Spans -----

  function Shifted(s: set<Vec>, r: Vec): set<Vec> { set x | x in s :: Xor(x, r) }

  /** All XOR combinations of the rows. */
  function Span(rows: seq<Vec>): set<Vec> {
    if rows == [] then {{}}
    else Span(rows[..|rows| - 1]) + Shifted(Span(rows[..|rows| - 1]), rows[|rows| - 1])
  }

  /** How many rows lie outside the span of the rows before them. */
  function Rank(rows: seq<Vec>): nat {
    if rows == [] then 0
    else Rank(rows[..|rows| - 1]) + if rows[|rows| - 1] in Span(rows[..|rows| - 1]) then 0 else 1
  }

  function Pow2(n: nat): nat { if n == 0 then 1 else 2 * Pow2(n - 1) }

  lemma XorTwice(x: Vec, r: Vec)
    ensures Xor(Xor(x, r), r) == x && Xor(x, x) == {} && Xor(x, {}) == x && Xor(x, r) == Xor(r, x)
  {}

  lemma XorAssoc(a: Vec, b: Vec, c: Vec)
    ensures Xor(Xor(a, b), c) == Xor(a, Xor(b, c))
  {}

  lemma InShifted(s: set<Vec>, r: Vec, v: Vec)
    ensures v in Shifted(s, r) <==> Xor(v, r) in s
  {
    XorTwice(v, r);
    if Xor(v, r) in s {
      assert Xor(Xor(v, r), r) in Shifted(s, r);
    }
    if v in Shifted(s, r) {
      var x :| x in s && v == Xor(x, r);
      XorTwice(x, r);
    }
  }

  lemma SpanAdd(rows: seq<Vec>, r: Vec)
    ensures Span(rows + [r]) == Span(rows) + Shifted(Span(rows), r)
    ensures forall v :: v in Span(rows + [r]) <==> v in Span(rows) || Xor(v, r) in Span(rows)
    ensures Rank(rows + [r]) == Rank(rows) + if r in Span(rows) then 0 else 1
  {
    hide Xor;
    assert (rows + [r])[..|rows|] == rows;
    forall v ensures v in Shifted(Span(rows), r) <==> Xor(v, r) in Span(rows) { InShifted(Span(rows), r, v); }
  }

  lemma SpanSplit(rows: seq<Vec>)
    requires rows != []
    ensures rows == rows[..|rows| - 1] + [rows[|rows| - 1]]
  {}

  lemma {:induction false} SpanHasZero(rows: seq<Vec>)
    ensures {} in Span(rows)
  {
    hide Xor, Shifted;
    if rows != [] {
      SpanHasZero(rows[..|rows| - 1]);
    }
  }

  /** A span is closed under XOR. */
  lemma {:induction false} SpanClosed(rows: seq<Vec>, x: Vec, y: Vec)
    requires x in Span(rows) && y in Span(rows)
    ensures Xor(x, y) in Span(rows)
  {
    hide Xor, Shifted;
    if rows == [] {
      XorTwice(x, y);
    } else {
      var init, r := rows[..|rows| - 1], rows[|rows| - 1];
      SpanSplit(rows);
      SpanAdd(init, r);
      if x in Span(init) {
        if y in Span(init) {
          SpanClosed(init, x, y);
        } else {
          SpanClosed(init, x, Xor(y, r));
          XorAssoc(x, y, r);
        }
      } else if y in Span(init) {
        SpanClosed(init, Xor(x, r), y);
        XorAssoc(x, r, y);
        XorAssoc(x, y, r);
        XorTwice(y, r);
      } else {
        SpanClosed(init, Xor(x, r), Xor(y, r));
        XorAssoc(x, r, Xor(y, r));
        XorTwice(y, r);
        XorTwice(r, Xor(y, r));
      }
    }
  }

  /** Adding a vector already in the span changes nothing. */
  lemma SpanAddMember(rows: seq<Vec>, r: Vec)
    requires r in Span(rows)
    ensures Span(rows + [r]) == Span(rows)
  {
    hide Xor, Shifted, Span;
    SpanAdd(rows, r);
    forall v ensures v in Span(rows + [r]) <==> v in Span(rows) {
      XorTwice(v, r);
      if Xor(v, r) in Span(rows) {
        SpanClosed(rows, Xor(v, r), r);
      }
    }
  }

  /** Two vectors that differ by a combination of the rows add the same thing to the span. */
  lemma SpanAddEquivalent(rows: seq<Vec>, a: Vec, b: Vec)
    requires Xor(a, b) in Span(rows)
    ensures Span(rows + [a]) == Span(rows + [b])
    ensures a in Span(rows) <==> b in Span(rows)
  {
    hide Xor, Shifted, Span;
    SpanAdd(rows, a);
    SpanAdd(rows, b);
    SpanHasZero(rows);
    XorTwice(a, b);
    XorTwice(b, a);
    if a in Span(rows) { SpanClosed(rows, Xor(a, b), a); XorTwice(b, a); }
    if b in Span(rows) { SpanClosed(rows, Xor(a, b), b); }
    forall v ensures v in Span(rows + [a]) <==> v in Span(rows + [b]) {
      XorAssoc(v, a, Xor(a, b));
      XorAssoc(a, a, b);
      XorTwice(b, {});
      XorTwice(b, Xor(a, b));
      XorAssoc(v, b, Xor(a, b));
      if Xor(v, a) in Span(rows) { SpanClosed(rows, Xor(v, a), Xor(a, b)); }
      if Xor(v, b) in Span(rows) { SpanClosed(rows, Xor(v, b), Xor(a, b)); }
    }
  }

  lemma {:induction false} ShiftedSize(s: set<Vec>, r: Vec)
    ensures |Shifted(s, r)| == |s|
  {
    hide Xor;
    if s != {} {
      var x :| x in s;
      var rest := s - {x};
      ShiftedSize(rest, r);
      forall v ensures v in Shifted(s, r) <==> v in Shifted(rest, r) + {Xor(x, r)} {
        InShifted(s, r, v);
        InShifted(rest, r, v);
        XorTwice(v, r);
        XorTwice(x, r);
      }
      assert Shifted(s, r) == Shifted(rest, r) + {Xor(x, r)};
      InShifted(rest, r, Xor(x, r));
      XorTwice(x, r);
    }
  }

  /** The span of any rows has exactly 2^rank elements. */
  lemma {:induction false} SpanSize(rows: seq<Vec>)
    ensures |Span(rows)| == Pow2(Rank(rows))
  {
    hide Xor, Shifted;
    if rows != [] {
      var init, r := rows[..|rows| - 1], rows[|rows| - 1];
      SpanSplit(rows);
      SpanAdd(init, r);
      SpanSize(init);
      if r in Span(init) {
        SpanAddMember(init, r);
      } else {
        ShiftedSize(Span(init), r);
        assert Span(init) !! Shifted(Span(init), r) by {
          forall v | v in Span(init) ensures v !in Shifted(Span(init), r) {
            InShifted(Span(init), r, v);
            XorTwice(r, v);
            if Xor(v, r) in Span(init) {
              SpanClosed(init, v, Xor(v, r));
              XorTwice(Xor(v, r), v);
              XorAssoc(v, v, r);
            }
          }
        }
      }
    }
  }

  lemma {:induction false} Pow2Injective(m: nat, n: nat)
    ensures Pow2(m) == Pow2(n) <==> m == n
    ensures Pow2(m) > 0
    decreases m + n
  {
    if m > 0 && n > 0 {
      Pow2Injective(m - 1, n - 1);
    } else if m > 0 {
      Pow2Injective(m - 1, 0);
    } else if n > 0 {
      Pow2Injective(0, n - 1);
      Pow2Injective(n - 1, 0);
    }
  }

  /** Rows that all lie in another span span no more. */
  lemma {:induction false} SpanIncluded(a: seq<Vec>, b: seq<Vec>)
    requires forall r :: r in a ==> r in Span(b)
    ensures Span(a) <= Span(b)
  {
    hide Xor, Shifted, Span;
    if a == [] {
      SpanHasZero(b);
      SpanOfNothing();
    } else {
      var init, r := a[..|a| - 1], a[|a| - 1];
      SpanSplit(a);
      SpanIncluded(init, b);
      SpanAdd(init, r);
      forall v | v in Span(a) ensures v in Span(b) {
        if v !in Span(init) {
          SpanClosed(b, Xor(v, r), r);
          XorTwice(v, r);
        }
      }
    }
  }

  lemma SpanOfNothing()
    ensures Span([]) == {{}} && Rank([]) == 0
  {}

  lemma {:induction false} SpanHasRows(rows: seq<Vec>, r: Vec)
    requires r in rows
    ensures r in Span(rows)
  {
    hide Xor, Shifted, Span;
    var init, last := rows[..|rows| - 1], rows[|rows| - 1];
    SpanSplit(rows);
    SpanAdd(init, last);
    if r == last {
      SpanHasZero(init);
      XorTwice(last, last);
    } else {
      SpanHasRows(init, r);
    }
  }

  /** Neither the order of the rows nor repeating them matters, for the span or for the rank. */
  lemma RankIgnoresOrderAndDuplicates(a: seq<Vec>, b: seq<Vec>)
    requires forall r :: r in a <==> r in b
    ensures Span(a) == Span(b) && Rank(a) == Rank(b)
  {
    hide Xor, Shifted, Span;
    forall r | r in a ensures r in Span(b) { SpanHasRows(b, r); }
    forall r | r in b ensures r in Span(a) { SpanHasRows(a, r); }
    SpanIncluded(a, b);
    SpanIncluded(b, a);
    SpanSize(a);
    SpanSize(b);
    Pow2Injective(Rank(a), Rank(b));
  }

  // ----- Elimination -----

  /** Non-zero vectors with pairwise different leading bits. */
  ghost predicate Echelon(basis: seq<Vec>) {
    && (forall i :: 0 <= i < |basis| ==> basis[i] != {})
    && (forall i, j :: 0 <= i < j < |basis| ==> Lead(basis[i]) != Lead(basis[j]))
  }

  /** Every non-zero combination of such vectors leads with one of their leading bits. */
  lemma {:induction false} LeadInSpan(basis: seq<Vec>, v: Vec)
    requires Echelon(basis) && v in Span(basis) && v != {}
    ensures exists i :: 0 <= i < |basis| && Lead(v) == Lead(basis[i])
  {
    hide Shifted, Span;
    if basis == [] {
      SpanOfNothing();
    } else {
      var n := |basis| - 1;
      var init, b := basis[..n], basis[n];
      SpanSplit(basis);
      SpanAdd(init, b);
      if v in Span(init) {
        LeadInSpan(init, v);
        var i :| 0 <= i < n && Lead(v) == Lead(init[i]);
        assert Lead(v) == Lead(basis[i]);
      } else {
        var y := Xor(v, b);
        XorTwice(v, b);
        if y == {} {
          assert v == b;
        } else {
          LeadInSpan(init, y);
          var i :| 0 <= i < n && Lead(y) == Lead(init[i]);
          assert basis[i] == init[i];
          LeadOfXor(y, b);
          assert v == Xor(y, b);
        }
      }
    }
  }

  lemma LeadOfXor(y: Vec, b: Vec)
    requires y != {} && b != {} && Lead(y) != Lead(b)
    ensures Xor(y, b) != {} && Lead(Xor(y, b)) == if Lead(y) < Lead(b) then Lead(b) else Lead(y)
  {
    var top := if Lead(y) < Lead(b) then Lead(b) else Lead(y);
    assert top in Xor(y, b);
  }

  lemma LeadFalls(value: Vec, pivot: Vec)
    requires value != {} && pivot != {} && Lead(value) == Lead(pivot)
    ensures Xor(value, pivot) != {} ==> Lead(Xor(value, pivot)) < Lead(value)
  {
    assert Lead(value) !in Xor(value, pivot);
  }

  /** A vector whose leading bit is new lies outside the span. */
  lemma NewLeadIsOutside(basis: seq<Vec>, v: Vec)
    requires Echelon(basis) && v != {}
    requires forall i :: 0 <= i < |basis| ==> Lead(basis[i]) != Lead(v)
    ensures v !in Span(basis)
    ensures Echelon(basis + [v])
  {
    hide Xor, Shifted, Span;
    if v in Span(basis) {
      LeadInSpan(basis, v);
    }
  }

  /** The pivot dictionary holds exactly the vectors of `basis`, each under its leading bit. */
  ghost predicate Pivots(pivots: map<nat, Vec>, basis: seq<Vec>) {
    && Echelon(basis)
    && |pivots| == |basis|
    && (forall p :: p in pivots ==> pivots[p] in basis && pivots[p] != {} && Lead(pivots[p]) == p)
    && (forall i :: 0 <= i < |basis| ==> Lead(basis[i]) in pivots)
  }

  function Measure(v: Vec): nat { if v == {} then 0 else Lead(v) + 1 }

  /** The inner loop: reduces one row and stores what is left of it, if anything, under its leading bit. */
  method ReduceRow(row: Vec, pivots: map<nat, Vec>, ghost basis: seq<Vec>)
    returns (updated: map<nat, Vec>, ghost spanning: seq<Vec>)
    requires Pivots(pivots, basis)
    ensures Pivots(updated, spanning)
    ensures Span(spanning) == Span(basis + [row])
    ensures |spanning| == |basis| + if row in Span(basis) then 0 else 1
    ensures |updated| == |pivots| + if row in Span(basis) then 0 else 1
  {
    hide Xor, Shifted, Span, Lead;
    var value := row;
    SpanHasZero(basis);
    XorTwice(row, row);
    while value != {}
      invariant Xor(row, value) in Span(basis)
      decreases Measure(value)
    {
      var pivot := Lead(value);
      if pivot !in pivots {
        NewLeadIsOutside(basis, value);
        SpanAddEquivalent(basis, row, value);
        updated, spanning := pivots[pivot := value], basis + [value];
        return;
      }
      var p := pivots[pivot];
      SpanHasRows(basis, p);
      SpanClosed(basis, Xor(row, value), p);
      XorAssoc(row, value, p);
      LeadFalls(value, p);
      value := Xor(value, p);
    }
    XorTwice(row, {});
    SpanAddMember(basis, row);
    updated, spanning := pivots, basis;
  }

  lemma NoPivots()
    ensures Pivots(map[], [])
  {}

  /** _gf2_rank: terminates because the leading bit falls, and returns the rank. */
  method Gf2Rank(rows: seq<Vec>) returns (rank: nat)
    ensures rank == Rank(rows)
    ensures |Span(rows)| == Pow2(rank)
  {
    hide Xor, Shifted, Span, Rank, Pivots;
    var pivots: map<nat, Vec> := map[];
    ghost var basis: seq<Vec> := [];
    SpanOfNothing();
    NoPivots();
    for i := 0 to |rows|
      invariant Pivots(pivots, basis)
      invariant Span(basis) == Span(rows[..i])
      invariant |pivots| == Rank(rows[..i])
    {
      assert rows[..i + 1] == rows[..i] + [rows[i]];
      SpanAdd(rows[..i], rows[i]);
      SpanAdd(basis, rows[i]);
      pivots, basis := ReduceRow(rows[i], pivots, basis);
    }
    assert rows[..|rows|] == rows;
    SpanSize(rows);
    return |pivots|;
  }

  // ----- Functionals -----

  /** The parity of the bits of `v` selected by `c`. */
  function Dot(c: Vec, v: Vec): bool { |c * v| % 2 == 1 }

  lemma XorSize(a: Vec, b: Vec)
    ensures |Xor(a, b)| % 2 == (|a| + |b|) % 2
  {
    assert a == (a - b) + (a * b) && b == (b - a) + (a * b);
    assert |a| == |a - b| + |a * b| && |b| == |b - a| + |a * b|;
    assert |Xor(a, b)| == |a - b| + |b - a|;
  }

  lemma DotXor(c: Vec, a: Vec, b: Vec)
    ensures Dot(c, Xor(a, b)) <==> Dot(c, a) != Dot(c, b)
  {
    MeetXor(c, a, b);
    hide Xor;
    XorSize(c * a, c * b);
  }

  lemma MeetXor(c: Vec, a: Vec, b: Vec)
    ensures c * Xor(a, b) == Xor(c * a, c * b)
  {}

  ghost predicate Kills(c: Vec, rows: seq<Vec>) {
    forall i :: 0 <= i < |rows| ==> !Dot(c, rows[i])
  }

  /** A functional that is zero on the rows is zero on their span. */
  lemma {:induction false} KillsSpan(c: Vec, rows: seq<Vec>, v: Vec)
    requires Kills(c, rows) && v in Span(rows)
    ensures !Dot(c, v)
  {
    hide Xor, Shifted, Span, Dot;
    if rows == [] {
      SpanOfNothing();
      XorTwice(v, v);
      DotXor(c, v, v);
    } else {
      var init, r := rows[..|rows| - 1], rows[|rows| - 1];
      SpanSplit(rows);
      SpanAdd(init, r);
      if v in Span(init) {
        KillsSpan(c, init, v);
      } else {
        KillsSpan(c, init, Xor(v, r));
        DotXor(c, v, r);
      }
    }
  }

  /** Separation: whatever lies outside a span is seen by some functional that is zero on the span. */
  lemma {:induction false} Separate(rows: seq<Vec>, t: Vec) returns (c: Vec)
    requires t !in Span(rows)
    ensures Kills(c, rows) && Dot(c, t)
    decreases |rows|
  {
    hide Xor, Shifted, Span, Dot;
    if rows == [] {
      SpanOfNothing();
      c := OneBitOf(t);
    } else {
      var init, r := rows[..|rows| - 1], rows[|rows| - 1];
      SpanSplit(rows);
      SpanAdd(init, r);
      var a := Separate(init, t);
      if !Dot(a, r) {
        c := a;
      } else {
        var b := Separate(init, Xor(t, r));
        DotXor(b, t, r);
        if !Dot(b, r) {
          c := b;
        } else {
          c := Xor(a, b);
          forall i | 0 <= i < |rows| ensures !Dot(c, rows[i]) {
            DotSwap(a, b, rows[i]);
            assert i < |init| ==> init[i] == rows[i];
          }
          DotSwap(a, b, t);
        }
      }
    }
  }

  lemma DotSwap(a: Vec, b: Vec, v: Vec)
    ensures Dot(Xor(a, b), v) <==> Dot(a, v) != Dot(b, v)
  {
    hide Xor;
    DotXor(v, a, b);
    assert Xor(a, b) * v == v * Xor(a, b) && a * v == v * a && b * v == v * b;
  }

  lemma OneBitOf(t: Vec) returns (c: Vec)
    requires t != {}
    ensures Dot(c, t)
  {
    var x :| x in t;
    c := {x};
    assert c * t == {x};
  }

  /** Outside the span means: separated from it. */
  lemma OutsideIffSeparated(rows: seq<Vec>, t: Vec)
    ensures t !in Span(rows) <==> exists c :: Kills(c, rows) && Dot(c, t)
  {
    hide Xor, Shifted, Span, Dot, Kills;
    if t !in Span(rows) {
      var c := Separate(rows, t);
    }
    if c :| Kills(c, rows) && Dot(c, t) {
      if t in Span(rows) {
        KillsSpan(c, rows, t);
      }
    }
  }
}
