/**
 The combination generator: every size-k subsequence of a pool, in the order
 the recursive generator yields them.

 `Combinations` and `CombinationsFrom` follow the generator's recursion step
 for step: `Combinations` is one call (its `k == 0` base case yields the
 prefix), `CombinationsFrom` is its `for` loop from index `i` on. Running the
 same generator on `Range(n)` yields index tuples instead of values; the
 lemmas below describe that index view (lengths, strictly increasing indices,
 lexicographic order, no duplicates, nothing missing) and tie every value
 combination to its index tuple.
 */
module Generator {
  import opened Counting

  /** What one generator call with `k` slots left, starting at `start` and carrying `prefix`, yields. */
  function Combinations<T>(arr: seq<T>, k: nat, start: nat, prefix: seq<T>): seq<seq<T>>
    decreases k, 1
  {
    if k == 0 then [prefix] else CombinationsFrom(arr, k, start, prefix)
  }

  /** The generator's loop over the index of the next slot, from `i` up to `|arr| - k`. */
  function CombinationsFrom<T>(arr: seq<T>, k: nat, i: nat, prefix: seq<T>): seq<seq<T>>
    requires k > 0
    decreases k, 0, |arr| - i
  {
    if i + k > |arr| then []
    else Combinations(arr, k - 1, i + 1, prefix + [arr[i]]) + CombinationsFrom(arr, k, i + 1, prefix)
  }

  /** The number of pool entries at or after `start`. */
  function Remaining(n: nat, start: nat): nat
  {
    if start <= n then n - start else 0
  }

  /** The indices 0, 1, ..., n - 1 in order. */
  function Range(n: nat): (r: seq<nat>)
    ensures |r| == n
    ensures forall i :: 0 <= i < n ==> r[i] == i
  {
    seq(n, i requires 0 <= i < n => i)
  }

  /** The entries of `arr` at the indices `t`, in the order of `t`. */
  function Pick<T>(arr: seq<T>, t: seq<nat>): (r: seq<T>)
    requires forall j :: 0 <= j < |t| ==> t[j] < |arr|
    ensures |r| == |t|
    ensures forall j :: 0 <= j < |t| ==> r[j] == arr[t[j]]
  {
    seq(|t|, j requires 0 <= j < |t| => arr[t[j]])
  }

  /** `t` is a strictly increasing tuple of indices, each in [lo, n). */
  predicate IndexTuple(t: seq<nat>, lo: nat, n: nat)
  {
    && (forall j :: 0 <= j < |t| ==> lo <= t[j] < n)
    && (forall a, b :: 0 <= a < b < |t| ==> t[a] < t[b])
  }

  /** Strict lexicographic order on index tuples. */
  predicate LexLess(x: seq<nat>, y: seq<nat>)
  {
    |x| > 0 && |y| > 0 && (x[0] < y[0] || (x[0] == y[0] && LexLess(x[1..], y[1..])))
  }

  /** Every earlier tuple is lexicographically smaller than every later one. */
  predicate LexSorted(ts: seq<seq<nat>>)
  {
    forall a, b :: 0 <= a < b < |ts| ==> LexLess(ts[a], ts[b])
  }

  /** The index tuples of all size-k subsets of {0, ..., n - 1}, as the generator yields them. */
  function IndexCombinations(n: nat, k: nat): seq<seq<nat>>
  {
    Combinations(Range(n), k, 0, [])
  }

  // ---------------------------------------------------------------------------
  // Counting

  /** A call yields C(m, k) sequences, m being the entries left from `start` on. */
  lemma {:induction false} CombinationsCount<T>(arr: seq<T>, k: nat, start: nat, prefix: seq<T>)
    ensures |Combinations(arr, k, start, prefix)| == Choose(Remaining(|arr|, start), k)
    decreases k, 1
  {
    if k > 0 {
      CombinationsFromCount(arr, k, start, prefix);
    }
  }

  lemma {:induction false} CombinationsFromCount<T>(arr: seq<T>, k: nat, i: nat, prefix: seq<T>)
    requires k > 0
    ensures |CombinationsFrom(arr, k, i, prefix)| == Choose(Remaining(|arr|, i), k)
    decreases k, 0, |arr| - i
  {
    if i + k > |arr| {
      ChooseBeyond(Remaining(|arr|, i), k);
    } else {
      CombinationsCount(arr, k - 1, i + 1, prefix + [arr[i]]);
      CombinationsFromCount(arr, k, i + 1, prefix);
    }
  }

  /** Base case: with no slot left, exactly the prefix is yielded. */
  lemma NoSlotsYieldsPrefix<T>(arr: seq<T>, start: nat, prefix: seq<T>)
    ensures Combinations(arr, 0, start, prefix) == [prefix]
  {
  }

  /** Base case: a pool with fewer than k entries yields nothing (and raises no error). */
  lemma {:induction false} ShortPoolYieldsNothing<T>(arr: seq<T>, k: nat, prefix: seq<T>)
    requires 0 < k && |arr| < k
    ensures Combinations(arr, k, 0, prefix) == []
  {
    CombinationsCount(arr, k, 0, prefix);
    ChooseBeyond(|arr|, k);
  }

  // ---------------------------------------------------------------------------
  // Shape of each yielded sequence

  /** Every yielded sequence is the prefix followed by k more entries. */
  lemma {:induction false} CombinationsShape<T>(arr: seq<T>, k: nat, start: nat, prefix: seq<T>)
    ensures forall c :: c in Combinations(arr, k, start, prefix) ==>
      |c| == |prefix| + k && c[..|prefix|] == prefix
    decreases k, 1
  {
    if k > 0 {
      CombinationsFromShape(arr, k, start, prefix);
    }
  }

  lemma {:induction false} CombinationsFromShape<T>(arr: seq<T>, k: nat, i: nat, prefix: seq<T>)
    requires k > 0
    ensures forall c :: c in CombinationsFrom(arr, k, i, prefix) ==>
      |c| == |prefix| + k && c[..|prefix|] == prefix
    decreases k, 0, |arr| - i
  {
    if i + k <= |arr| {
      var p' := prefix + [arr[i]];
      CombinationsShape(arr, k - 1, i + 1, p');
      CombinationsFromShape(arr, k, i + 1, prefix);
      forall c | c in Combinations(arr, k - 1, i + 1, p')
        ensures c[..|prefix|] == prefix
      {
        assert c[..|p'|][..|prefix|] == p'[..|prefix|];
      }
    }
  }

  // ---------------------------------------------------------------------------
  // The index view

  lemma {:induction false} IndexTupleCons(i: nat, t: seq<nat>, n: nat)
    requires i < n && IndexTuple(t, i + 1, n)
    ensures IndexTuple([i] + t, i, n)
  {
    var t' := [i] + t;
    forall a, b | 0 <= a < b < |t'|
      ensures t'[a] < t'[b]
    {
      if a > 0 {
        assert t'[a] == t[a - 1] && t'[b] == t[b - 1];
      } else {
        assert t'[b] == t[b - 1];
      }
    }
  }

  /** A strictly increasing tuple inside [lo, n) has room: lo + |t| <= n. */
  lemma {:induction false} IndexTupleFits(t: seq<nat>, lo: nat, n: nat)
    requires IndexTuple(t, lo, n)
    ensures |t| > 0 ==> lo + |t| <= n
  {
    if |t| > 0 {
      var t' := t[1..];
      forall a, b | 0 <= a < b < |t'|
        ensures t'[a] < t'[b]
      {
        assert t'[a] == t[a + 1] && t'[b] == t[b + 1];
      }
      forall j | 0 <= j < |t'|
        ensures t[0] + 1 <= t'[j] < n
      {
        assert t'[j] == t[j + 1];
      }
      IndexTupleFits(t', t[0] + 1, n);
      assert lo <= t[0] && |t| == |t'| + 1;
    }
  }

  /** On indices, every yielded tuple extends the prefix by k strictly increasing indices in [start, n). */
  lemma {:induction false} IndexShape(n: nat, k: nat, start: nat, prefix: seq<nat>)
    ensures forall c :: c in Combinations(Range(n), k, start, prefix) ==>
      |c| == |prefix| + k && c[..|prefix|] == prefix && IndexTuple(c[|prefix|..], start, n)
    decreases k, 1
  {
    if k > 0 {
      IndexFromShape(n, k, start, prefix);
    } else {
      assert prefix[|prefix|..] == [];
    }
  }

  lemma {:induction false} IndexFromShape(n: nat, k: nat, i: nat, prefix: seq<nat>)
    requires k > 0
    ensures forall c :: c in CombinationsFrom(Range(n), k, i, prefix) ==>
      |c| == |prefix| + k && c[..|prefix|] == prefix && IndexTuple(c[|prefix|..], i, n)
    decreases k, 0, n - i
  {
    if i + k <= n {
      var p' := prefix + [i];
      assert Range(n)[i] == i;
      IndexShape(n, k - 1, i + 1, p');
      IndexFromShape(n, k, i + 1, prefix);
      forall c | c in Combinations(Range(n), k - 1, i + 1, p')
        ensures c[..|prefix|] == prefix && IndexTuple(c[|prefix|..], i, n)
      {
        assert c[..|p'|][..|prefix|] == p'[..|prefix|];
        assert c[|prefix|] == c[..|p'|][|prefix|];
        assert c[|prefix|..] == [i] + c[|p'|..];
        IndexTupleCons(i, c[|p'|..], n);
      }
    }
  }

  /** Lexicographic order is decided at the first position where two tuples differ. */
  lemma {:induction false} LexLessAt(x: seq<nat>, y: seq<nat>, m: nat)
    requires m < |x| && m < |y| && x[..m] == y[..m] && x[m] < y[m]
    ensures LexLess(x, y)
  {
    if m > 0 {
      assert x[0] == x[..m][0] == y[..m][0] == y[0];
      assert x[1..][..m - 1] == x[..m][1..] == y[..m][1..] == y[1..][..m - 1];
      LexLessAt(x[1..], y[1..], m - 1);
    }
  }

  lemma {:induction false} LexLessIrreflexive(x: seq<nat>)
    ensures !LexLess(x, x)
  {
    if |x| > 0 {
      LexLessIrreflexive(x[1..]);
    }
  }

  /** On indices, the tuples come out in strictly increasing lexicographic order. */
  lemma {:induction false} IndexOrder(n: nat, k: nat, start: nat, prefix: seq<nat>)
    ensures LexSorted(Combinations(Range(n), k, start, prefix))
    decreases k, 1
  {
    if k > 0 {
      IndexFromOrder(n, k, start, prefix);
    } else {
      assert |Combinations(Range(n), k, start, prefix)| == 1;
    }
  }

  lemma {:induction false} IndexFromOrder(n: nat, k: nat, i: nat, prefix: seq<nat>)
    requires k > 0
    ensures LexSorted(CombinationsFrom(Range(n), k, i, prefix))
    decreases k, 0, n - i
  {
    if i + k <= n {
      var p' := prefix + [i];
      assert Range(n)[i] == i;
      var first := Combinations(Range(n), k - 1, i + 1, p');
      var rest := CombinationsFrom(Range(n), k, i + 1, prefix);
      assert first + rest == CombinationsFrom(Range(n), k, i, prefix);
      IndexOrder(n, k - 1, i + 1, p');
      IndexFromOrder(n, k, i + 1, prefix);
      forall x, y | x in first && y in rest
        ensures LexLess(x, y)
      {
        TakenBeforeSkipped(n, k, i, prefix, x, y);
      }
      LexSortedConcat(first, rest);
    }
  }

  /** Two sorted lists, every tuple of the first below every tuple of the second, make a sorted list. */
  lemma LexSortedConcat(first: seq<seq<nat>>, rest: seq<seq<nat>>)
    requires LexSorted(first) && LexSorted(rest)
    requires forall x, y :: x in first && y in rest ==> LexLess(x, y)
    ensures LexSorted(first + rest)
  {
    var cs := first + rest;
    forall a, b | 0 <= a < b < |cs|
      ensures LexLess(cs[a], cs[b])
    {
      if b < |first| {
        assert cs[a] == first[a] && cs[b] == first[b];
      } else if a >= |first| {
        assert cs[a] == rest[a - |first|] && cs[b] == rest[b - |first|];
      } else {
        assert cs[a] == first[a] && cs[b] == rest[b - |first|];
      }
    }
  }

  /** A tuple that takes index i comes before every tuple that skips it. */
  lemma TakenBeforeSkipped(n: nat, k: nat, i: nat, prefix: seq<nat>, x: seq<nat>, y: seq<nat>)
    requires k > 0 && i + k <= n
    requires x in Combinations(Range(n), k - 1, i + 1, prefix + [i])
    requires y in CombinationsFrom(Range(n), k, i + 1, prefix)
    ensures LexLess(x, y)
  {
    var p' := prefix + [i];
    IndexShape(n, k - 1, i + 1, p');
    IndexFromShape(n, k, i + 1, prefix);
    assert x[..|p'|][..|prefix|] == p'[..|prefix|];
    assert x[|prefix|] == x[..|p'|][|prefix|] == i;
    assert y[|prefix|] == y[|prefix|..][0];
    LexLessAt(x, y, |prefix|);
  }

  /** On indices, every strictly increasing k-tuple in [start, n) is yielded (after the prefix). */
  lemma {:induction false} IndexComplete(n: nat, k: nat, start: nat, prefix: seq<nat>, t: seq<nat>)
    requires |t| == k && IndexTuple(t, start, n)
    ensures prefix + t in Combinations(Range(n), k, start, prefix)
    decreases k, 1
  {
    if k == 0 {
      assert prefix + t == prefix;
    } else {
      IndexFromComplete(n, k, start, prefix, t);
    }
  }

  lemma {:induction false} IndexFromComplete(n: nat, k: nat, i: nat, prefix: seq<nat>, t: seq<nat>)
    requires k > 0 && |t| == k && IndexTuple(t, i, n)
    ensures prefix + t in CombinationsFrom(Range(n), k, i, prefix)
    decreases k, 0, n - i
  {
    IndexTupleFits(t, i, n);
    assert Range(n)[i] == i;
    if t[0] == i {
      var t' := t[1..];
      forall a, b | 0 <= a < b < |t'|
        ensures t'[a] < t'[b]
      {
        assert t'[a] == t[a + 1] && t'[b] == t[b + 1];
      }
      forall j | 0 <= j < |t'|
        ensures i + 1 <= t'[j] < n
      {
        assert t'[j] == t[j + 1];
      }
      IndexComplete(n, k - 1, i + 1, prefix + [i], t');
      assert (prefix + [i]) + t' == prefix + t;
    } else {
      IndexFromComplete(n, k, i + 1, prefix, t);
    }
  }

  // ---------------------------------------------------------------------------
  // Values and indices

  /** `c` is `prefix` followed by the entries of `arr` at the indices `u`. */
  ghost predicate Selects<T>(arr: seq<T>, prefix: seq<T>, c: seq<T>, u: seq<nat>)
  {
    (forall j :: 0 <= j < |u| ==> u[j] < |arr|) && c == prefix + Pick(arr, u)
  }

  /** Moving one selected entry from the prefix into the index tuple. */
  lemma SelectsCons<T>(arr: seq<T>, prefix: seq<T>, i: nat, c: seq<T>, u: seq<nat>)
    requires i < |arr| && Selects(arr, prefix + [arr[i]], c, u)
    ensures Selects(arr, prefix, c, [i] + u)
  {
    assert Pick(arr, [i] + u) == [arr[i]] + Pick(arr, u);
  }

  /** Value combination j is the value prefix followed by the entries at index tuple j past the index prefix. */
  ghost predicate Follows<T>(arr: seq<T>, prefix: seq<T>, iprefix: seq<nat>, cs: seq<seq<T>>, ts: seq<seq<nat>>)
  {
    && |cs| == |ts|
    && forall j :: 0 <= j < |ts| ==> |iprefix| <= |ts[j]| && Selects(arr, prefix, cs[j], ts[j][|iprefix|..])
  }

  lemma FollowsConcat<T>(arr: seq<T>, prefix: seq<T>, iprefix: seq<nat>,
                         cs: seq<seq<T>>, ts: seq<seq<nat>>, cs': seq<seq<T>>, ts': seq<seq<nat>>)
    requires Follows(arr, prefix, iprefix, cs, ts) && Follows(arr, prefix, iprefix, cs', ts')
    ensures Follows(arr, prefix, iprefix, cs + cs', ts + ts')
  {
    var cc, tt := cs + cs', ts + ts';
    forall j | 0 <= j < |tt|
      ensures |iprefix| <= |tt[j]| && Selects(arr, prefix, cc[j], tt[j][|iprefix|..])
    {
      if j < |ts| {
        assert tt[j] == ts[j] && cc[j] == cs[j];
      } else {
        assert tt[j] == ts'[j - |ts|] && cc[j] == cs'[j - |cs|];
      }
    }
  }

  /**
   The generator on values yields, in the same order, the entries of `arr` at the
   index tuples the generator yields on `Range(|arr|)`.
   */
  lemma {:induction false} ValuesFollowIndices<T>(arr: seq<T>, k: nat, start: nat, prefix: seq<T>, iprefix: seq<nat>)
    ensures Follows(arr, prefix, iprefix, Combinations(arr, k, start, prefix), Combinations(Range(|arr|), k, start, iprefix))
    decreases k, 1
  {
    if k == 0 {
      assert iprefix[|iprefix|..] == [];
    } else {
      ValuesFollowIndicesFrom(arr, k, start, prefix, iprefix);
    }
  }

  lemma {:induction false} ValuesFollowIndicesFrom<T>(arr: seq<T>, k: nat, i: nat, prefix: seq<T>, iprefix: seq<nat>)
    requires k > 0
    ensures Follows(arr, prefix, iprefix, CombinationsFrom(arr, k, i, prefix), CombinationsFrom(Range(|arr|), k, i, iprefix))
    decreases k, 0, |arr| - i
  {
    if i + k <= |arr| {
      var n := |arr|;
      assert Range(n)[i] == i;
      var p', q' := prefix + [arr[i]], iprefix + [i];
      var cFirst, tFirst := Combinations(arr, k - 1, i + 1, p'), Combinations(Range(n), k - 1, i + 1, q');
      var cRest, tRest := CombinationsFrom(arr, k, i + 1, prefix), CombinationsFrom(Range(n), k, i + 1, iprefix);
      assert cFirst + cRest == CombinationsFrom(arr, k, i, prefix);
      assert tFirst + tRest == CombinationsFrom(Range(n), k, i, iprefix);
      ValuesFollowIndices(arr, k - 1, i + 1, p', q');
      FirstBranchFollows(arr, k, i, prefix, iprefix);
      ValuesFollowIndicesFrom(arr, k, i + 1, prefix, iprefix);
      FollowsConcat(arr, prefix, iprefix, cFirst, tFirst, cRest, tRest);
    }
  }

  /** The branch that takes index i moves that index from the index prefix into the tuple. */
  lemma FirstBranchFollows<T>(arr: seq<T>, k: nat, i: nat, prefix: seq<T>, iprefix: seq<nat>)
    requires k > 0 && i < |arr|
    requires Follows(arr, prefix + [arr[i]], iprefix + [i],
                     Combinations(arr, k - 1, i + 1, prefix + [arr[i]]),
                     Combinations(Range(|arr|), k - 1, i + 1, iprefix + [i]))
    ensures Follows(arr, prefix, iprefix,
                    Combinations(arr, k - 1, i + 1, prefix + [arr[i]]),
                    Combinations(Range(|arr|), k - 1, i + 1, iprefix + [i]))
  {
    var cs := Combinations(arr, k - 1, i + 1, prefix + [arr[i]]);
    var ts := Combinations(Range(|arr|), k - 1, i + 1, iprefix + [i]);
    forall j | 0 <= j < |ts|
      ensures |iprefix| <= |ts[j]| && Selects(arr, prefix, cs[j], ts[j][|iprefix|..])
    {
      assert ts[j] in ts;
      FirstBranchSelects(arr, k, i, prefix, iprefix, cs[j], ts[j]);
    }
  }

  /** One step of the value/index correspondence for the branch that takes index i. */
  lemma FirstBranchSelects<T>(arr: seq<T>, k: nat, i: nat, prefix: seq<T>, iprefix: seq<nat>, c: seq<T>, t: seq<nat>)
    requires k > 0 && i < |arr|
    requires t in Combinations(Range(|arr|), k - 1, i + 1, iprefix + [i])
    requires |iprefix| + 1 <= |t| && Selects(arr, prefix + [arr[i]], c, t[|iprefix| + 1..])
    ensures |iprefix| <= |t| && Selects(arr, prefix, c, t[|iprefix|..])
  {
    var q' := iprefix + [i];
    IndexShape(|arr|, k - 1, i + 1, q');
    assert t[..|q'|][|iprefix|] == q'[|iprefix|] == i;
    assert t[|iprefix|..] == [i] + t[|q'|..];
    SelectsCons(arr, prefix, i, c, t[|q'|..]);
  }

  // ---------------------------------------------------------------------------
  // The whole generator, as the search calls it

  /**
   `Combinations(arr, k, 0, [])` yields exactly C(|arr|, k) sequences; the j-th is the
   entries of `arr` at the j-th index tuple, a strictly increasing k-tuple of
   indices of `arr`; the tuples are in strictly increasing lexicographic order,
   hence pairwise distinct; and every strictly increasing k-tuple occurs.
   */
  lemma GeneratorCharacterised<T>(arr: seq<T>, k: nat)
    ensures var cs := Combinations(arr, k, 0, []);
      var ts := IndexCombinations(|arr|, k);
      && |cs| == |ts| == Choose(|arr|, k)
      && (forall j :: 0 <= j < |ts| ==>
            |ts[j]| == k && IndexTuple(ts[j], 0, |arr|) && cs[j] == Pick(arr, ts[j]))
      && LexSorted(ts)
      && (forall a, b :: 0 <= a < b < |ts| ==> ts[a] != ts[b])
      && (forall t :: |t| == k && IndexTuple(t, 0, |arr|) ==> t in ts)
  {
    var cs := Combinations(arr, k, 0, []);
    var ts := IndexCombinations(|arr|, k);
    CombinationsCount(arr, k, 0, []);
    ValuesFollowIndices(arr, k, 0, [], []);
    IndexShape(|arr|, k, 0, []);
    forall j | 0 <= j < |ts|
      ensures |ts[j]| == k && IndexTuple(ts[j], 0, |arr|) && cs[j] == Pick(arr, ts[j])
    {
      assert ts[j] in ts;
      assert ts[j][0..] == ts[j];
      assert [] + Pick(arr, ts[j]) == Pick(arr, ts[j]);
    }
    IndexOrder(|arr|, k, 0, []);
    forall a, b | 0 <= a < b < |ts|
      ensures ts[a] != ts[b]
    {
      LexLessIrreflexive(ts[a]);
    }
    forall t | |t| == k && IndexTuple(t, 0, |arr|)
      ensures t in ts
    {
      IndexComplete(|arr|, k, 0, [], t);
      assert [] + t == t;
    }
  }

  /**
   A pool without repeated entries, like the script's list of species ids,
   yields every team exactly once, and no team holds an entry twice.
   */
  lemma DistinctPoolDistinctTeams<T>(arr: seq<T>, k: nat)
    requires forall i, j :: 0 <= i < j < |arr| ==> arr[i] != arr[j]
    ensures var cs := Combinations(arr, k, 0, []);
      && (forall a, b :: 0 <= a < b < |cs| ==> cs[a] != cs[b])
      && (forall j, p, q :: 0 <= j < |cs| && 0 <= p < q < |cs[j]| ==> cs[j][p] != cs[j][q])
  {
    var cs := Combinations(arr, k, 0, []);
    var ts := IndexCombinations(|arr|, k);
    GeneratorCharacterised(arr, k);
    forall a, b | 0 <= a < b < |cs|
      ensures cs[a] != cs[b]
    {
      var m := FirstDifference(ts[a], ts[b]);
      assert cs[a][m] == arr[ts[a][m]] && cs[b][m] == arr[ts[b][m]];
    }
    forall j, p, q | 0 <= j < |cs| && 0 <= p < q < |cs[j]|
      ensures cs[j][p] != cs[j][q]
    {
      assert ts[j][p] < ts[j][q];
      assert cs[j][p] == arr[ts[j][p]] && cs[j][q] == arr[ts[j][q]];
    }
  }

  /** Two different tuples of the same length differ at some position. */
  lemma FirstDifference(x: seq<nat>, y: seq<nat>) returns (m: nat)
    requires |x| == |y| && x != y
    ensures m < |x| && x[m] != y[m]
  {
    assert exists i :: 0 <= i < |x| && x[i] != y[i];
    m :| m < |x| && x[m] != y[m];
  }

  /** A pool of four entries yields its four triples in index order. */
  lemma FourEntryPool()
    ensures Combinations(["A", "B", "C", "D"], 3, 0, [])
         == [["A", "B", "C"], ["A", "B", "D"], ["A", "C", "D"], ["B", "C", "D"]]
  {
    var arr := ["A", "B", "C", "D"];
    assert arr[0] == "A" && arr[1] == "B" && arr[2] == "C" && arr[3] == "D";
    assert ["A", "B"] + ["C"] == ["A", "B", "C"] && ["A", "B"] + ["D"] == ["A", "B", "D"];
    assert ["A", "C"] + ["D"] == ["A", "C", "D"] && ["B", "C"] + ["D"] == ["B", "C", "D"];
    assert ["A"] + ["B"] == ["A", "B"] && ["A"] + ["C"] == ["A", "C"] && ["B"] + ["C"] == ["B", "C"];
    assert CombinationsFrom(arr, 1, 3, ["A", "B"]) == [["A", "B", "D"]];
    assert CombinationsFrom(arr, 1, 2, ["A", "B"]) == [["A", "B", "C"], ["A", "B", "D"]];
    assert CombinationsFrom(arr, 1, 3, ["A", "C"]) == [["A", "C", "D"]];
    assert CombinationsFrom(arr, 2, 2, ["A"]) == [["A", "C", "D"]];
    assert CombinationsFrom(arr, 2, 1, ["A"]) == [["A", "B", "C"], ["A", "B", "D"], ["A", "C", "D"]];
    assert CombinationsFrom(arr, 1, 3, ["B", "C"]) == [["B", "C", "D"]];
    assert CombinationsFrom(arr, 2, 2, ["B"]) == [["B", "C", "D"]];
    var none: seq<string> := [];
    assert none + ["A"] == ["A"] && none + ["B"] == ["B"];
    assert CombinationsFrom(arr, 3, 1, none) == [["B", "C", "D"]];
    assert CombinationsFrom(arr, 3, 0, none) == [["A", "B", "C"], ["A", "B", "D"], ["A", "C", "D"], ["B", "C", "D"]];
  }
}
