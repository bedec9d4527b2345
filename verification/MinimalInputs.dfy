/**
  _minimal_input_sets of tools/proflame_extended/analyze_issue_15.py: the smallest sets of state words that determine an
  integrity word on the captures seen.
 */
module MinimalInputs {
  import opened AffineFit

  const INPUT_INDEXES: seq<nat> := [3, 4, 5, 6, 7]

  predicate Increasing(c: seq<nat>) { forall i, j :: 0 <= i < j < |c| ==> c[i] < c[j] }

  predicate IsInputSet(c: seq<nat>) { Increasing(c) && forall i :: 0 <= i < |c| ==> 3 <= c[i] <= 7 }

  /** The capture's values at the given word indexes. */
  function Key(words: Words, indexes: seq<nat>): (key: seq<bv8>)
    requires forall i :: 0 <= i < |indexes| ==> indexes[i] < 10
    ensures |key| == |indexes| && forall i :: 0 <= i < |key| ==> key[i] == words[indexes[i]]
  {
    seq(|indexes|, i requires 0 <= i < |indexes| => words[indexes[i]])
  }

  /** Captures that agree on the inputs agree on the output. */
  ghost predicate Determines(captures: seq<Words>, inputs: seq<nat>, output: nat)
    requires output < 10 && IsInputSet(inputs)
  {
    forall a, b :: a in captures && b in captures && Key(a, inputs) == Key(b, inputs) ==> a[output] == b[output]
  }

  /** The inner loop: a dictionary from inputs to outputs, until it would be overwritten with another value. */
  method ConflictFree(captures: seq<Words>, inputs: seq<nat>, output: nat) returns (free: bool)
    requires output < 10 && IsInputSet(inputs)
    ensures free <==> Determines(captures, inputs, output)
  {
    hide Increasing;
    var values: map<seq<bv8>, bv8> := map[];
    for i := 0 to |captures|
      invariant forall k :: 0 <= k < i ==> Key(captures[k], inputs) in values && values[Key(captures[k], inputs)] == captures[k][output]
      invariant forall key :: key in values ==> exists k :: 0 <= k < i && Key(captures[k], inputs) == key
    {
      var key, value := Key(captures[i], inputs), captures[i][output];
      if key in values && values[key] != value {
        var k :| 0 <= k < i && Key(captures[k], inputs) == key;
        assert captures[k] in captures && captures[i] in captures;
        return false;
      }
      values := values[key := value];
    }
    return true;
  }

  function Prefixed(x: nat, lists: seq<seq<nat>>): (r: seq<seq<nat>>)
    ensures forall c :: c in r <==> c != [] && c[0] == x && c[1..] in lists
  {
    if lists == [] then []
    else
      assert [x] + lists[0] != [] && ([x] + lists[0])[1..] == lists[0];
      assert forall c: seq<nat> :: c != [] && c[0] == x && c[1..] == lists[0] ==> c == [x] + lists[0];
      [[x] + lists[0]] + Prefixed(x, lists[1..])
  }

  /** itertools.combinations */
  function Combinations(pool: seq<nat>, size: nat): seq<seq<nat>> {
    if size == 0 then [[]]
    else if pool == [] then []
    else Prefixed(pool[0], Combinations(pool[1..], size - 1)) + Combinations(pool[1..], size)
  }

  predicate IsSelection(c: seq<nat>, pool: seq<nat>) { Increasing(c) && forall i :: 0 <= i < |c| ==> c[i] in pool }

  /** The combinations of an increasing pool are its increasing selections. */
  lemma {:induction false} CombinationsAre(pool: seq<nat>, size: nat, c: seq<nat>)
    requires Increasing(pool)
    ensures c in Combinations(pool, size) <==> |c| == size && IsSelection(c, pool)
  {
    hide Increasing, IsSelection, Combinations;
    CombinationsStep(pool, size, c);
    EmptySelection(pool, c);
    if size > 0 && pool != [] {
      RestIncreasing(pool);
      CombinationsAre(pool[1..], size, c);
      if c != [] {
        CombinationsAre(pool[1..], size - 1, c[1..]);
        SelectionSplit(pool, c);
      }
    }
  }

  lemma CombinationsStep(pool: seq<nat>, size: nat, c: seq<nat>)
    ensures c in Combinations(pool, size)
       <==> if size == 0 then c == []
            else
              && pool != []
              && ((c != [] && c[0] == pool[0] && c[1..] in Combinations(pool[1..], size - 1)) || c in Combinations(pool[1..], size))
  {}

  lemma EmptySelection(pool: seq<nat>, c: seq<nat>)
    ensures c == [] ==> IsSelection(c, pool)
    ensures pool == [] && c != [] ==> !IsSelection(c, pool)
  {
    if c != [] {
      assert pool == [] ==> c[0] !in pool;
    }
  }

  lemma RestIncreasing(pool: seq<nat>)
    requires pool != [] && Increasing(pool)
    ensures Increasing(pool[1..])
  {}

  /** A selection starts with the head of the pool or does not use it. */
  lemma SelectionSplit(pool: seq<nat>, c: seq<nat>)
    requires pool != [] && Increasing(pool) && c != []
    ensures IsSelection(c, pool)
       <==> (c[0] == pool[0] && IsSelection(c[1..], pool[1..])) || IsSelection(c, pool[1..])
  {
    assert pool == [pool[0]] + pool[1..] && c == [c[0]] + c[1..];
    if IsSelection(c, pool) {
      SelectionTail(pool, c);
    }
    if c[0] == pool[0] && IsSelection(c[1..], pool[1..]) {
      Prepended(pool[0], c[1..], pool[1..]);
    }
  }

  lemma Prepended(x: nat, c: seq<nat>, rest: seq<nat>)
    requires Increasing([x] + rest) && Increasing(c) && forall i :: 0 <= i < |c| ==> c[i] in rest
    ensures Increasing([x] + c) && forall i :: 0 <= i < |c| + 1 ==> ([x] + c)[i] in [x] + rest
  {
    forall y | y in rest ensures x < y {
      var k :| 0 <= k < |rest| && rest[k] == y;
      assert ([x] + rest)[0] == x && ([x] + rest)[k + 1] == y;
    }
  }

  lemma SelectionTail(pool: seq<nat>, c: seq<nat>)
    requires pool != [] && Increasing(pool) && c != [] && Increasing(c) && forall i :: 0 <= i < |c| ==> c[i] in pool
    ensures Increasing(c[1..]) && forall i :: 0 <= i < |c| - 1 ==> c[1..][i] in pool[1..]
    ensures c[0] != pool[0] ==> forall i :: 0 <= i < |c| ==> c[i] in pool[1..]
  {
    assert pool == [pool[0]] + pool[1..];
    var k :| 0 <= k < |pool| && pool[k] == c[0];
    forall i | 0 < i < |c| ensures c[i] in pool[1..] { assert c[0] < c[i]; }
  }

  lemma KeyOfMore(a: Words, b: Words, some: seq<nat>)
    requires IsInputSet(some) && IsInputSet(INPUT_INDEXES) && Key(a, INPUT_INDEXES) == Key(b, INPUT_INDEXES)
    ensures Key(a, some) == Key(b, some)
  {
    forall i | 0 <= i < |some| ensures a[some[i]] == b[some[i]] {
      var k := some[i] - 3;
      assert Key(a, INPUT_INDEXES)[k] == Key(b, INPUT_INDEXES)[k];
    }
  }

  /** More inputs determine no less. */
  lemma MoreInputs(captures: seq<Words>, some: seq<nat>, output: nat)
    requires output < 10 && IsInputSet(some) && IsInputSet(INPUT_INDEXES)
    ensures Determines(captures, some, output) ==> Determines(captures, INPUT_INDEXES, output)
  {
    hide Key;
    forall a, b | a in captures && b in captures && Key(a, INPUT_INDEXES) == Key(b, INPUT_INDEXES) ensures Key(a, some) == Key(b, some) {
      KeyOfMore(a, b, some);
    }
  }

  lemma {:induction false} PlaceBound(c: seq<nat>, i: nat)
    requires IsInputSet(c) && i < |c|
    ensures 3 + i <= c[i] <= 7
  {
    if i > 0 {
      PlaceBound(c, i - 1);
      assert c[i - 1] < c[i];
    }
  }

  lemma InputSetSize(c: seq<nat>)
    requires IsInputSet(c)
    ensures |c| <= 5 && (|c| == 5 ==> c == INPUT_INDEXES)
  {
    if |c| > 5 {
      PlaceBound(c, 5);
      assert false;
    }
    if |c| == 5 {
      forall i | 0 <= i < 5 ensures 3 + i <= c[i] { PlaceBound(c, i); }
      PlaceBound(c, 4);
      assert c[0] < c[1] < c[2] < c[3] < c[4];
    }
  }

  lemma SelectionOfInputs(c: seq<nat>)
    ensures IsSelection(c, INPUT_INDEXES) <==> IsInputSet(c)
  {
    forall i | 0 <= i < |c| ensures c[i] in INPUT_INDEXES <==> 3 <= c[i] <= 7 {
      if 3 <= c[i] <= 7 {
        assert INPUT_INDEXES[c[i] - 3] == c[i];
      }
    }
  }

  lemma CombinationsOfInputs(size: nat)
    ensures forall c :: c in Combinations(INPUT_INDEXES, size) <==> |c| == size && IsInputSet(c)
    ensures IsInputSet(INPUT_INDEXES)
  {
    hide Combinations;
    forall c ensures c in Combinations(INPUT_INDEXES, size) <==> |c| == size && IsInputSet(c) {
      CombinationsAre(INPUT_INDEXES, size, c);
      SelectionOfInputs(c);
    }
  }

  /** A non-empty set of state words that determines the output, when no smaller one does. */
  ghost predicate IsMinimal(captures: seq<Words>, c: seq<nat>, output: nat)
    requires output < 10
  {
    && IsInputSet(c) && c != [] && Determines(captures, c, output)
    && forall d :: IsInputSet(d) && 0 < |d| < |c| ==> !Determines(captures, d, output)
  }

  /** Every smallest determining set of words is reported, and nothing else; none is exactly when even all five words fail. */
  method MinimalInputSets(captures: seq<Words>, output: nat) returns (sets: seq<seq<nat>>)
    requires output < 10
    ensures forall c :: c in sets <==> IsMinimal(captures, c, output)
    ensures sets == [] <==> !Determines(captures, [3, 4, 5, 6, 7], output)
  {
    hide Determines, IsInputSet, Combinations;
    for size := 1 to 6
      invariant forall d :: IsInputSet(d) && 0 < |d| < size ==> !Determines(captures, d, output)
    {
      var combinations := Combinations(INPUT_INDEXES, size);
      CombinationsOfInputs(size);
      var valid: seq<seq<nat>> := [];
      for i := 0 to |combinations|
        invariant forall c :: c in valid <==> c in combinations[..i] && IsInputSet(c) && Determines(captures, c, output)
      {
        assert combinations[i] in combinations;
        assert combinations[..i + 1] == combinations[..i] + [combinations[i]];
        var free := ConflictFree(captures, combinations[i], output);
        if free {
          valid := valid + [combinations[i]];
        }
      }
      assert combinations[..|combinations|] == combinations;
      if valid != [] {
        assert valid[0] in valid;
        MoreInputs(captures, valid[0], output);
        return valid;
      }
      forall d | IsInputSet(d) && |d| == size ensures !Determines(captures, d, output) { assert d !in valid; }
    }
    CombinationsOfInputs(5);
    forall c ensures !IsMinimal(captures, c, output) {
      if IsInputSet(c) {
        InputSetSize(c);
      }
    }
    return [];
  }
}
