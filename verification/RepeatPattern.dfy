/**
  detect_repeat_pattern of tools/compare_rtl433_captures.py: the shortest chunk whose repetition gives a
  code list is its unique primitive root.
 */
module RepeatPattern {
  import opened Wrappers

  datatype Pattern<T> = Pattern(chunk: seq<T>, repeatLen: nat, repeatCount: nat, allRepeatsIdentical: bool)

  function Power<T>(u: seq<T>, k: nat): seq<T> {
    if k == 0 then [] else Power(u, k - 1) + u
  }

  /** Not the repetition of anything shorter. */
  ghost predicate Primitive<T(!new)>(u: seq<T>) {
    u != [] && forall v: seq<T>, k: nat {:trigger Power(v, k)} :: Power(v, k) == u ==> k == 1
  }

  // ----- Powers -----

  lemma {:induction false} PowerPlus<T>(u: seq<T>, a: nat, b: nat)
    ensures Power(u, a + b) == Power(u, a) + Power(u, b)
  {
    if b == 0 {
      assert Power(u, a) + [] == Power(u, a);
    } else {
      PowerPlus(u, a, b - 1);
      assert Power(u, a + b) == Power(u, a) + Power(u, b - 1) + u;
      assert Power(u, a) + Power(u, b - 1) + u == Power(u, a) + (Power(u, b - 1) + u);
    }
  }

  lemma {:induction false} PowerTimes<T>(u: seq<T>, a: nat, b: nat)
    ensures Power(Power(u, a), b) == Power(u, b * a)
  {
    if b > 0 {
      PowerTimes(u, a, b - 1);
      PowerPlus(u, (b - 1) * a, a);
      assert (b - 1) * a + a == b * a;
    }
  }

  lemma {:induction false} PowerLength<T>(u: seq<T>, k: nat)
    ensures |Power(u, k)| == k * |u|
  {
    if k > 0 {
      PowerLength(u, k - 1);
      assert (k - 1) * |u| + |u| == k * |u|;
    }
  }

  lemma PowerOne<T>(u: seq<T>)
    ensures Power(u, 1) == u
  {
    assert Power(u, 1) == Power(u, 0) + u;
    assert [] + u == u;
  }

  lemma PowerPrefix<T>(u: seq<T>, a: nat, b: nat)
    requires a <= b
    ensures Power(u, a) <= Power(u, b)
  {
    PowerPlus(u, a, b - a);
  }

  /** A word commutes with its own powers. */
  lemma PowerCommutes<T>(u: seq<T>, k: nat)
    ensures u + Power(u, k) == Power(u, k) + u
  {
    PowerPlus(u, 1, k);
    PowerOne(u);
  }

  // ----- Words with a common power -----

  /** Words with a common power commute: both products are prefixes of that power taken twice. */
  lemma CommonPowerCommutes<T>(u: seq<T>, j: nat, w: seq<T>, k: nat)
    requires j > 0 && k > 0 && Power(u, j) == Power(w, k)
    ensures u + w == w + u
  {
    var s := Power(u, j);
    PowerCommutes(u, j);
    PowerCommutes(w, k);
    PowerPrefix(u, 1, j);
    PowerPrefix(w, 1, k);
    PowerOne(u);
    PowerOne(w);
    PrefixOfDouble(u, w, s);
    PrefixOfDouble(w, u, s);
    assert u + w == (s + s)[..|u| + |w|] == w + u;
  }

  lemma PrefixOfDouble<T>(u: seq<T>, w: seq<T>, s: seq<T>)
    requires u <= s && w <= s && u + s == s + u
    ensures u + w <= s + s
  {
    assert u + w <= u + s;
    assert s + u <= s + s;
  }

  /** Commuting words are powers of a common word. */
  lemma {:induction false} CommutingHaveRoot<T>(u: seq<T>, w: seq<T>) returns (t: seq<T>, a: nat, b: nat)
    requires u + w == w + u
    ensures u == Power(t, a) && w == Power(t, b)
    decreases |u| + |w|, |u|
  {
    if u == [] {
      t, a, b := w, 0, 1;
      PowerOne(w);
    } else if |w| < |u| {
      t, b, a := CommutingHaveRoot(w, u);
    } else {
      var rest := w[|u|..];
      assert (u + w)[..|u|] == u && (w + u)[..|u|] == w[..|u|];
      assert w == u + rest;
      assert (u + w)[|u|..] == u + rest && (w + u)[|u|..] == rest + u;
      var c: nat;
      t, a, c := CommutingHaveRoot(u, rest);
      b := a + c;
      PowerPlus(t, a, c);
    }
  }

  /** The primitive root is unique: primitive words with a common power are equal, and so are the exponents. */
  lemma PrimitiveRootUnique<T(!new)>(u: seq<T>, j: nat, w: seq<T>, k: nat)
    requires Primitive(u) && Primitive(w) && j > 0 && k > 0 && Power(u, j) == Power(w, k)
    ensures u == w && j == k
  {
    CommonPowerCommutes(u, j, w, k);
    var t, a, b := CommutingHaveRoot(u, w);
    PowerOne(t);
    PowerLength(u, j);
    PowerLength(u, k);
    MulOrder(j, k, |u|);
    MulOrder(k, j, |u|);
  }

  // ----- The search -----

  /** Compares the chunk with every stretch of its length, until one differs. */
  method AllChunksEqual<T(==)>(codes: seq<T>, chunk: seq<T>) returns (equal: bool, ghost count: nat)
    requires chunk != [] && |codes| % |chunk| == 0
    ensures equal ==> Power(chunk, count) == codes
    ensures !equal ==> forall k: nat :: Power(chunk, k) != codes
  {
    var index := 0;
    count := 0;
    while index < |codes|
      invariant index <= |codes| && codes[..index] == Power(chunk, count)
      invariant index == count * |chunk|
      decreases |codes| - index
    {
      WholeChunkLeft(|codes|, |chunk|, count);
      if codes[index..index + |chunk|] != chunk {
        NotAPower(codes, chunk, count);
        return false, count;
      }
      assert codes[..index + |chunk|] == codes[..index] + chunk;
      assert (count + 1) * |chunk| == index + |chunk|;
      index, count := index + |chunk|, count + 1;
    }
    assert codes[..index] == codes;
    return true, count;
  }

  lemma {:induction false} MulOrder(a: nat, b: nat, d: nat)
    ensures a < b ==> a * d + d <= b * d
    decreases b
  {
    if a < b {
      assert b * d == (b - 1) * d + d;
      MulOrder(a, b - 1, d);
    }
  }

  lemma WholeChunkLeft(n: nat, d: nat, count: nat)
    requires d > 0 && n % d == 0 && count * d < n
    ensures count * d + d <= n
  {
    var q := n / d;
    assert n == q * d;
    MulOrder(count, q, d);
    MulOrder(q, count, d);
  }

  lemma NextChunk<T>(u: seq<T>, count: nat, k: nat)
    requires count < k
    ensures count * |u| + |u| <= |Power(u, k)| && Power(u, k)[count * |u|..count * |u| + |u|] == u
  {
    hide Power;
    PowerLength(u, count);
    PowerPlus(u, count, 1);
    PowerPlus(u, count + 1, k - count - 1);
    PowerOne(u);
    var head, tail := Power(u, count), Power(u, k - count - 1);
    assert Power(u, k) == head + u + tail;
    assert (head + u + tail)[|head|..|head| + |u|] == u;
  }

  lemma NotAPower<T>(codes: seq<T>, chunk: seq<T>, count: nat)
    requires count * |chunk| + |chunk| <= |codes| && chunk != []
    requires codes[count * |chunk|..count * |chunk| + |chunk|] != chunk
    ensures forall k: nat :: Power(chunk, k) != codes
  {
    hide Power;
    forall k: nat ensures Power(chunk, k) != codes {
      PowerLength(chunk, k);
      MulOrder(k, count + 1, |chunk|);
      assert (count + 1) * |chunk| == count * |chunk| + |chunk|;
      if count < k {
        NextChunk(chunk, count, k);
      }
    }
  }

  /** No power of a word of length d gives the codes, for the lengths already tried. */
  ghost predicate NoRootBelow<T(!new)>(codes: seq<T>, limit: nat) {
    forall v: seq<T>, k: nat {:trigger Power(v, k)} :: 0 < |v| < limit ==> Power(v, k) != codes
  }

  lemma RootIsPrefix<T>(codes: seq<T>, v: seq<T>, k: nat)
    requires codes != [] && Power(v, k) == codes
    ensures |v| <= |codes| && codes[..|v|] == v && v != [] && |codes| % |v| == 0 && k == |codes| / |v|
  {
    if k > 0 {
      PowerPrefix(v, 1, k);
      PowerOne(v);
    }
    PowerLength(v, k);
    Divides(k, |v|, |codes|);
  }

  lemma Divides(k: nat, d: nat, n: nat)
    requires k * d == n && n > 0
    ensures d > 0 && n % d == 0 && n / d == k
  {
    assert d > 0 by { assert d == 0 ==> k * d == 0; }
    var q, r := n / d, n % d;
    assert n == q * d + r;
    MulOrder(q, k, d);
    MulOrder(k, q, d);
  }

  lemma ShortestIsPrimitive<T(!new)>(codes: seq<T>, chunk: seq<T>, count: nat)
    requires codes != [] && chunk != [] && Power(chunk, count) == codes && NoRootBelow(codes, |chunk|)
    ensures Primitive(chunk)
  {
    forall v: seq<T>, k: nat {:trigger Power(v, k)} | Power(v, k) == chunk ensures k == 1 {
      PowerTimes(v, k, count);
      RootIsPrefix(chunk, v, k);
      assert !(0 < |v| < |chunk|);
      PowerLength(v, k);
      Divides(k, |v|, |chunk|);
      assert |v| == |chunk|;
      Divides(1, |v|, |chunk|);
    }
  }

  lemma LengthFails<T(!new)>(codes: seq<T>, d: nat)
    requires codes != [] && 0 < d <= |codes| && NoRootBelow(codes, d)
    requires |codes| % d != 0 || forall k: nat :: Power(codes[..d], k) != codes
    ensures NoRootBelow(codes, d + 1)
  {
    forall v: seq<T>, k: nat {:trigger Power(v, k)} | 0 < |v| < d + 1 ensures Power(v, k) != codes {
      if Power(v, k) == codes {
        RootIsPrefix(codes, v, k);
      }
    }
  }

  /**
    detect_repeat_pattern: the unique primitive root and its exponent.  The loop always returns, at the
    latest when the chunk is the whole list, so the fallback after it in the source is never reached.
   */
  method DetectRepeatPattern<T(!new, ==)>(codes: seq<T>) returns (r: Option<Pattern<T>>)
    ensures r.None? <==> codes == []
    ensures r.Some? ==> Primitive(r.value.chunk) && Power(r.value.chunk, r.value.repeatCount) == codes
    ensures r.Some? ==> r.value.repeatLen == |r.value.chunk| && r.value.repeatCount > 0 && r.value.allRepeatsIdentical
  {
    if codes == [] {
      return None;
    }
    var repeatLen := 1;
    while true
      invariant 1 <= repeatLen <= |codes| && NoRootBelow(codes, repeatLen)
      decreases |codes| - repeatLen
    {
      if |codes| % repeatLen == 0 {
        var chunk := codes[..repeatLen];
        var equal, count := AllChunksEqual(codes, chunk);
        if equal {
          RootIsPrefix(codes, chunk, count);
          ShortestIsPrimitive(codes, chunk, count);
          return Some(Pattern(chunk, repeatLen, |codes| / repeatLen, true));
        }
      }
      LengthFails(codes, repeatLen);
      WholeIsRoot(codes);
      repeatLen := repeatLen + 1;
    }
  }

  lemma WholeIsRoot<T(!new)>(codes: seq<T>)
    requires codes != []
    ensures !NoRootBelow(codes, |codes| + 1)
  {
    PowerOne(codes);
  }

  /** Detecting the power of a primitive word gives exactly that word and that exponent, whatever the detector returns. */
  lemma DetectsPower<T(!new)>(u: seq<T>, k: nat, r: Pattern<T>)
    requires Primitive(u) && k > 0
    requires Primitive(r.chunk) && r.repeatCount > 0 && Power(r.chunk, r.repeatCount) == Power(u, k)
    ensures r.chunk == u && r.repeatCount == k
  {
    PrimitiveRootUnique(r.chunk, r.repeatCount, u, k);
  }

  /** first_code_difference_index: where two code lists first differ, if they do. */
  method FirstCodeDifferenceIndex<T(==)>(left: seq<T>, right: seq<T>) returns (r: Option<nat>)
    ensures r.None? <==> left == right
    ensures r.Some? ==> r.value <= |left| && r.value <= |right| && left[..r.value] == right[..r.value]
    ensures r.Some? && r.value < |left| && r.value < |right| ==> left[r.value] != right[r.value]
  {
    var limit := if |left| < |right| then |left| else |right|;
    for index := 0 to limit
      invariant left[..index] == right[..index]
    {
      if left[index] != right[index] {
        return Some(index);
      }
    }
    if |left| != |right| {
      return Some(limit);
    }
    assert left == left[..limit] && right == right[..limit];
    return None;
  }
}
