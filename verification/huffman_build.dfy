/**
 * Frequency counting and the greedy build of the Huffman code tree, for the
 * integer-symbol variant (`buildHuffmanTree(const std::vector<int>&)`) and the
 * byte variant (`buildHuffmanTree(const std::string&)`, 256 buckets).
 *
 * The source keeps the working collection in a `std::priority_queue` ordered by
 * frequency alone, so which of several equal-frequency nodes comes out first is
 * not fixed by the code.  This model fixes one rule: the working collection is a
 * sequence, extraction takes the first node of least frequency, and the merged
 * parent is appended at the end.  `Merge` itself accepts any two positions, and
 * everything proved about it holds whichever nodes are extracted.
 */
module HuffmanBuild {
  import opened Wrappers
  import opened HuffmanTree

  // ---------------------------------------------------------------------------
  // The working collection ("forest") and what a merge conserves
  // ---------------------------------------------------------------------------

  /** All symbols held by the trees of the forest. */
  ghost function ForestSyms<S>(f: seq<Tree<S>>): multiset<S>
  {
    if f == [] then multiset{} else ForestSyms(f[..|f| - 1]) + Syms(f[|f| - 1])
  }

  /** Total of the root frequencies of the forest. */
  function ForestWeight<S>(f: seq<Tree<S>>): nat
  {
    if f == [] then 0 else ForestWeight(f[..|f| - 1]) + f[|f| - 1].freq
  }

  predicate AllWellFormed<S>(f: seq<Tree<S>>)
  {
    forall k :: 0 <= k < |f| ==> WellFormed(f[k])
  }

  predicate AllFreqsMatch<S>(f: seq<Tree<S>>, counts: multiset<S>)
  {
    forall k :: 0 <= k < |f| ==> FreqsMatch(f[k], counts)
  }

  lemma {:induction false} ForestAppend<S>(a: seq<Tree<S>>, b: seq<Tree<S>>)
    ensures ForestSyms(a + b) == ForestSyms(a) + ForestSyms(b)
    ensures ForestWeight(a + b) == ForestWeight(a) + ForestWeight(b)
    decreases |b|
  {
    if b == [] {
      assert a + b == a;
    } else {
      var b' := b[..|b| - 1];
      assert (a + b)[..|a + b| - 1] == a + b';
      ForestAppend(a, b');
    }
  }

  /** The sequence without its element at position `i`. */
  function RemoveAt<T>(f: seq<T>, i: nat): (g: seq<T>)
    requires i < |f|
    ensures |g| == |f| - 1
    ensures forall k :: 0 <= k < i ==> g[k] == f[k]
    ensures forall k :: i <= k < |g| ==> g[k] == f[k + 1]
  {
    f[..i] + f[i + 1..]
  }

  lemma SingletonForest<S>(t: Tree<S>)
    ensures ForestSyms([t]) == Syms(t) && ForestWeight([t]) == t.freq
  {
    assert [t][..0] == [];
  }

  /** A sequence is its part before `i`, its element at `i` and its part after `i`. */
  lemma SplitAt<T>(f: seq<T>, i: nat)
    requires i < |f|
    ensures f == (f[..i] + [f[i]]) + f[i + 1..]
  {
    var g := (f[..i] + [f[i]]) + f[i + 1..];
    assert |g| == |f|;
    assert forall k :: 0 <= k < |f| ==> g[k] == f[k];
  }

  lemma RemoveAtConserves<S>(f: seq<Tree<S>>, i: nat)
    requires i < |f|
    ensures ForestSyms(f) == ForestSyms(RemoveAt(f, i)) + Syms(f[i])
    ensures ForestWeight(f) == ForestWeight(RemoveAt(f, i)) + f[i].freq
  {
    var a, b := f[..i], f[i + 1..];
    var x := f[i];
    SplitAt(f, i);
    assert RemoveAt(f, i) == a + b;
    ForestAppend(a + [x], b);
    ForestAppend(a, [x]);
    ForestAppend(a, b);
    SingletonForest(x);
    var A, B, X := ForestSyms(a), ForestSyms(b), Syms(x);
    assert ForestSyms(f) == A + X + B;
    assert ForestSyms(RemoveAt(f, i)) == A + B;
  }

  /** Position of the first node of least frequency: the model of `pq.top()`. */
  function MinIndex<S>(f: seq<Tree<S>>): (i: nat)
    requires |f| > 0
    ensures i < |f|
    ensures forall k :: 0 <= k < |f| ==> f[i].freq <= f[k].freq
    ensures forall k :: 0 <= k < i ==> f[i].freq < f[k].freq
  {
    if |f| == 1 then 0
    else
      var k := MinIndex(f[1..]);
      if f[0].freq <= f[1..][k].freq then 0 else k + 1
  }

  /**
   * One round of the build loop: pop the node at `i` (the left child), pop the
   * node at `j` of what remains (the right child), push their parent, whose
   * frequency is the sum of theirs.  Any choice of `i` and `j` conserves the
   * symbols and the total weight, and keeps the forest well formed.
   */
  function Merge<S>(f: seq<Tree<S>>, i: nat, j: nat): (g: seq<Tree<S>>)
    requires i < |f| && j < |f| - 1
    ensures |g| == |f| - 1
    ensures g[|g| - 1] == Node(f[i].freq + RemoveAt(f, i)[j].freq, f[i], RemoveAt(f, i)[j])
    ensures g[..|g| - 1] == RemoveAt(RemoveAt(f, i), j)
  {
    var rest := RemoveAt(f, i);
    RemoveAt(rest, j) + [Node(f[i].freq + rest[j].freq, f[i], rest[j])]
  }

  /**
   * Whichever two nodes are extracted, a merge conserves the forest's symbols
   * and total weight and keeps every tree well formed.
   */
  lemma MergeConserves<S>(f: seq<Tree<S>>, i: nat, j: nat)
    requires i < |f| && j < |f| - 1
    ensures ForestSyms(Merge(f, i, j)) == ForestSyms(f)
    ensures ForestWeight(Merge(f, i, j)) == ForestWeight(f)
    ensures AllWellFormed(f) ==> AllWellFormed(Merge(f, i, j))
  {
    var g := Merge(f, i, j);
    var rest := RemoveAt(f, i);
    var kept := RemoveAt(rest, j);
    var parent := g[|g| - 1];
    assert g == kept + [parent];
    RemoveAtConserves(f, i);
    RemoveAtConserves(rest, j);
    ForestAppend(kept, [parent]);
    SingletonForest(parent);
    var K, L, R := ForestSyms(kept), Syms(f[i]), Syms(rest[j]);
    assert ForestSyms(g) == K + (L + R);
    assert ForestSyms(f) == (K + R) + L;
    if AllWellFormed(f) {
      KeepsWellFormed(f, i, j);
    }
  }

  lemma KeepsWellFormed<S>(f: seq<Tree<S>>, i: nat, j: nat)
    requires i < |f| && j < |f| - 1
    requires AllWellFormed(f)
    ensures AllWellFormed(Merge(f, i, j))
  {
    var g := Merge(f, i, j);
    var rest := RemoveAt(f, i);
    assert AllWellFormed(rest);
    assert AllWellFormed(g[..|g| - 1]);
    forall k | 0 <= k < |g| ensures WellFormed(g[k]) {
      if k < |g| - 1 {
        assert g[k] == g[..|g| - 1][k];
      }
    }
  }

  /** Merging conserves the agreement of every leaf with the symbol counts. */
  lemma MergeKeepsFreqs<S>(f: seq<Tree<S>>, i: nat, j: nat, counts: multiset<S>)
    requires i < |f| && j < |f| - 1
    requires AllFreqsMatch(f, counts)
    ensures AllFreqsMatch(Merge(f, i, j), counts)
  {
    var g := Merge(f, i, j);
    var rest := RemoveAt(f, i);
    assert AllFreqsMatch(rest, counts);
    assert AllFreqsMatch(g[..|g| - 1], counts);
    forall k | 0 <= k < |g| ensures FreqsMatch(g[k], counts) {
      if k < |g| - 1 {
        assert g[k] == g[..|g| - 1][k];
      }
    }
  }

  /** The build loop `while (pq.size() > 1)`: merge until one tree remains. */
  function MergeAll<S>(f: seq<Tree<S>>): (t: Tree<S>)
    requires |f| > 0
    ensures Syms(t) == ForestSyms(f)
    ensures t.freq == ForestWeight(f)
    ensures AllWellFormed(f) ==> WellFormed(t)
    ensures |f| == 1 ==> t == f[0]
    ensures |f| > 1 ==> t.Node?
    decreases |f|
  {
    if |f| == 1 then
      assert f[..0] == [];
      f[0]
    else
      var i := MinIndex(f);
      var j := MinIndex(RemoveAt(f, i));
      MergeConserves(f, i, j);
      MergeAll(Merge(f, i, j))
  }

  lemma {:induction false} MergeAllKeepsFreqs<S>(f: seq<Tree<S>>, counts: multiset<S>)
    requires |f| > 0 && AllFreqsMatch(f, counts)
    ensures FreqsMatch(MergeAll(f), counts)
    decreases |f|
  {
    if |f| > 1 {
      var i := MinIndex(f);
      var j := MinIndex(RemoveAt(f, i));
      MergeKeepsFreqs(f, i, j, counts);
      MergeAllKeepsFreqs(Merge(f, i, j), counts);
    }
  }

  /** `if (pq.empty()) return nullptr;` followed by the merge loop. */
  function BuildFromLeaves<S>(leaves: seq<Tree<S>>): (r: Option<Tree<S>>)
    ensures r.None? <==> leaves == []
    ensures r.Some? ==> Syms(r.value) == ForestSyms(leaves) && r.value.freq == ForestWeight(leaves)
    ensures r.Some? && AllWellFormed(leaves) ==> WellFormed(r.value)
    ensures r.Some? && |leaves| == 1 ==> r.value == leaves[0]
  {
    if leaves == [] then None else Some(MergeAll(leaves))
  }

  /** Leaves with pairwise different symbols build a tree with distinct leaves. */
  lemma BuildKeepsDistinct<S>(leaves: seq<Tree<S>>)
    requires forall s :: AtMostOnce(ForestSyms(leaves), s)
    ensures BuildFromLeaves(leaves).Some? ==> DistinctLeaves(BuildFromLeaves(leaves).value)
  {
    if leaves != [] {
      SingleCountsDistinct(MergeAll(leaves));
    }
  }

  /** No symbol occurs twice in the multiset. */
  ghost predicate NoRepeats<S(!new)>(m: multiset<S>)
  {
    forall s :: m[s] <= 1
  }

  // ---------------------------------------------------------------------------
  // Integer symbols: std::unordered_map<int, uint64_t> freq; freq[sym]++
  // ---------------------------------------------------------------------------

  /** `for (int sym : data) freq[sym]++;` */
  function CountFreqs(data: seq<int>): (freq: map<int, nat>)
    ensures forall s :: s in freq <==> s in data
    ensures forall s :: s in freq ==> freq[s] == multiset(data)[s]
  {
    if data == [] then map[]
    else
      var prefix := data[..|data| - 1];
      var sym := data[|data| - 1];
      assert data == prefix + [sym];
      var freq := CountFreqs(prefix);
      freq[sym := (if sym in freq then freq[sym] else 0) + 1]
  }

  /**
   * The distinct symbols of `data` in order of first occurrence: the order in
   * which this model creates the leaves (the source takes whatever order its
   * hash map iterates in).
   */
  function FirstOccurrences(data: seq<int>): (d: seq<int>)
    ensures forall s :: s in d <==> s in data
    ensures forall a, b :: 0 <= a < b < |d| ==> d[a] != d[b]
  {
    if data == [] then []
    else
      var d := FirstOccurrences(data[..|data| - 1]);
      var sym := data[|data| - 1];
      assert data == data[..|data| - 1] + [sym];
      if sym in d then d else d + [sym]
  }

  /** One leaf per listed symbol, carrying its count. */
  function LeavesFor(d: seq<int>, freq: map<int, nat>): (f: seq<Tree<int>>)
    requires forall k :: 0 <= k < |d| ==> d[k] in freq
    ensures |f| == |d|
    ensures forall k :: 0 <= k < |d| ==> f[k] == Leaf(d[k], freq[d[k]])
  {
    if d == [] then [] else LeavesFor(d[..|d| - 1], freq) + [Leaf(d[|d| - 1], freq[d[|d| - 1]])]
  }

  /** Sum of the counts in `m` of the symbols listed in `d`. */
  ghost function Tally(d: seq<int>, m: multiset<int>): nat
  {
    if d == [] then 0 else Tally(d[..|d| - 1], m) + m[d[|d| - 1]]
  }

  lemma {:induction false} LeavesForForest(d: seq<int>, freq: map<int, nat>, m: multiset<int>)
    requires forall k :: 0 <= k < |d| ==> d[k] in freq && freq[d[k]] == m[d[k]]
    ensures ForestSyms(LeavesFor(d, freq)) == multiset(d)
    ensures ForestWeight(LeavesFor(d, freq)) == Tally(d, m)
  {
    if d != [] {
      var d' := d[..|d| - 1];
      var f := LeavesFor(d, freq);
      assert f[..|f| - 1] == LeavesFor(d', freq);
      assert d == d' + [d[|d| - 1]];
      LeavesForForest(d', freq, m);
    }
  }

  lemma {:induction false} TallySnoc(d: seq<int>, m: multiset<int>, x: int)
    requires forall a, b :: 0 <= a < b < |d| ==> d[a] != d[b]
    ensures Tally(d, m + multiset{x}) == Tally(d, m) + (if x in d then 1 else 0)
  {
    if d != [] {
      var d' := d[..|d| - 1];
      TallySnoc(d', m, x);
      assert x in d <==> x in d' || x == d[|d| - 1];
      assert d[|d| - 1] !in d' by {
        forall a | 0 <= a < |d'| ensures d'[a] != d[|d| - 1] { }
      }
    }
  }

  lemma {:induction false} TallyFirstOccurrences(data: seq<int>)
    ensures Tally(FirstOccurrences(data), multiset(data)) == |data|
  {
    if data != [] {
      var prefix := data[..|data| - 1];
      var sym := data[|data| - 1];
      assert data == prefix + [sym];
      var d := FirstOccurrences(prefix);
      TallyFirstOccurrences(prefix);
      TallySnoc(d, multiset(prefix), sym);
      assert multiset(data) == multiset(prefix) + multiset{sym};
      if sym !in d {
        var d2 := d + [sym];
        assert d2[..|d2| - 1] == d;
        assert multiset(prefix)[sym] == 0;
      }
    }
  }

  lemma {:induction false} NoDupsNoRepeats(d: seq<int>)
    requires forall a, b :: 0 <= a < b < |d| ==> d[a] != d[b]
    ensures NoRepeats(multiset(d))
  {
    if d != [] {
      var d' := d[..|d| - 1];
      var x := d[|d| - 1];
      assert d == d' + [x];
      NoDupsNoRepeats(d');
      assert x !in d' by {
        forall a | 0 <= a < |d'| ensures d'[a] != x { }
      }
    }
  }

  /** The leaves the integer variant starts from: one per distinct symbol, carrying its count. */
  function IntLeaves(data: seq<int>): seq<Tree<int>>
  {
    FirstOccurrenceCounts(data);
    LeavesFor(FirstOccurrences(data), CountFreqs(data))
  }

  /**
   * `buildHuffmanTree` of the integer variant.  An empty input gives no tree;
   * otherwise the tree is well formed, has exactly one leaf per distinct symbol
   * of `data`, each leaf carries its symbol's occurrence count, and the root
   * frequency is the length of `data`.
   */
  function BuildHuffmanTree(data: seq<int>): (r: Option<Tree<int>>)
    ensures r.None? <==> data == []
    ensures r.Some? ==> DistinctLeaves(r.value)
    ensures r.Some? ==> WellFormed(r.value) && FreqsMatch(r.value, multiset(data))
    ensures r.Some? ==> forall s :: Syms(r.value)[s] == (if s in data then 1 else 0)
    ensures r.Some? ==> r.value.freq == |data|
  {
    IntBuildFacts(data);
    BuildFromLeaves(IntLeaves(data))
  }

  lemma IntBuildFacts(data: seq<int>)
    ensures var r := BuildFromLeaves(IntLeaves(data));
      && (r.None? <==> data == [])
      && (r.Some? ==> DistinctLeaves(r.value))
      && (r.Some? ==> WellFormed(r.value) && FreqsMatch(r.value, multiset(data)))
      && (r.Some? ==> forall s :: Syms(r.value)[s] == (if s in data then 1 else 0))
      && (r.Some? ==> r.value.freq == |data|)
  {
    var leaves := IntLeaves(data);
    var m := multiset(data);
    IntLeavesShape(data);
    if leaves != [] {
      var t := MergeAll(leaves);
      assert FreqsMatch(t, m) by {
        MergeAllKeepsFreqs(leaves, m);
      }
      assert t.freq == |data| by {
        IntLeavesWeight(data);
      }
      assert forall s :: Syms(t)[s] == (if s in data then 1 else 0) by {
        IntLeavesSyms(data);
      }
      assert DistinctLeaves(t) by {
        IntLeavesSyms(data);
        forall s ensures AtMostOnce(Syms(t), s) {
          assert Syms(t)[s] == (if s in data then 1 else 0);
        }
        SingleCountsDistinct(t);
      }
    }
  }

  lemma IntLeavesShape(data: seq<int>)
    ensures var leaves := IntLeaves(data);
      && (leaves == [] <==> data == [])
      && AllWellFormed(leaves)
      && AllFreqsMatch(leaves, multiset(data))
  {
    var d, freq := FirstOccurrences(data), CountFreqs(data);
    FirstOccurrenceCounts(data);
    var leaves := LeavesFor(d, freq);
    assert leaves == [] <==> data == [] by {
      if data != [] {
        assert data[0] in d;
      }
    }
    forall k | 0 <= k < |leaves| ensures WellFormed(leaves[k]) && FreqsMatch(leaves[k], multiset(data)) {
      assert leaves[k] == Leaf(d[k], freq[d[k]]);
    }
  }

  lemma IntLeavesWeight(data: seq<int>)
    ensures ForestWeight(IntLeaves(data)) == |data|
  {
    FirstOccurrenceCounts(data);
    LeavesForForest(FirstOccurrences(data), CountFreqs(data), multiset(data));
    TallyFirstOccurrences(data);
  }

  lemma IntLeavesSyms(data: seq<int>)
    ensures forall s :: ForestSyms(IntLeaves(data))[s] == (if s in data then 1 else 0)
  {
    var d := FirstOccurrences(data);
    FirstOccurrenceCounts(data);
    LeavesForForest(d, CountFreqs(data), multiset(data));
    NoDupsNoRepeats(d);
    forall s ensures multiset(d)[s] == (if s in data then 1 else 0) {
      assert s in multiset(d) <==> s in d;
    }
  }

  lemma FirstOccurrenceCounts(data: seq<int>)
    ensures var d, freq := FirstOccurrences(data), CountFreqs(data);
      forall k :: 0 <= k < |d| ==> d[k] in freq && freq[d[k]] == multiset(data)[d[k]] > 0
  {
    var d, freq := FirstOccurrences(data), CountFreqs(data);
    forall k | 0 <= k < |d| ensures d[k] in freq && freq[d[k]] == multiset(data)[d[k]] > 0 {
      assert d[k] in data;
    }
  }

  // ---------------------------------------------------------------------------
  // Byte symbols: std::vector<int> freq(256, 0); freq[(unsigned char)c]++
  // ---------------------------------------------------------------------------

  /** A `char` of the input string, read as the unsigned value that indexes its bucket. */
  type uchar = c: int | 0 <= c < 256

  /** The 256 buckets after `for (unsigned char c : data) freq[c]++;`. */
  function ByteCounts(data: seq<uchar>): (freq: seq<nat>)
    ensures |freq| == 256
    ensures forall c: uchar :: freq[c] == multiset(data)[c]
  {
    if data == [] then seq(256, _ => 0)
    else
      var prefix := data[..|data| - 1];
      var c := data[|data| - 1];
      assert data == prefix + [c];
      var freq := ByteCounts(prefix);
      freq[c := freq[c] + 1]
  }

  /** Leaves for the buckets below `k` whose count is positive, in ascending order. */
  function ByteLeaves(freq: seq<nat>, k: nat): (f: seq<Tree<uchar>>)
    requires |freq| == 256 && k <= 256
    ensures forall n :: 0 <= n < |f| ==> f[n].Leaf? && f[n].freq == freq[f[n].sym] > 0
  {
    if k == 0 then []
    else if freq[k - 1] > 0 then ByteLeaves(freq, k - 1) + [Leaf(k - 1, freq[k - 1])]
    else ByteLeaves(freq, k - 1)
  }

  /** Sum of the buckets below `k`. */
  ghost function BucketSum(freq: seq<nat>, k: nat): nat
    requires k <= |freq|
  {
    if k == 0 then 0 else BucketSum(freq, k - 1) + freq[k - 1]
  }

  lemma ByteLeavesForest(freq: seq<nat>, k: nat)
    requires |freq| == 256 && k <= 256
    ensures forall c: uchar :: ForestSyms(ByteLeaves(freq, k))[c] == (if c < k && freq[c] > 0 then 1 else 0)
    ensures ForestWeight(ByteLeaves(freq, k)) == BucketSum(freq, k)
  {
    ByteLeavesSyms(freq, k);
    ByteLeavesWeight(freq, k);
  }

  lemma ByteLeavesSyms(freq: seq<nat>, k: nat)
    requires |freq| == 256 && k <= 256
    ensures forall c: uchar :: ForestSyms(ByteLeaves(freq, k))[c] == (if c < k && freq[c] > 0 then 1 else 0)
  {
    forall c: uchar
      ensures ForestSyms(ByteLeaves(freq, k))[c] == (if c < k && freq[c] > 0 then 1 else 0)
    {
      ByteLeavesSymAt(freq, k, c);
    }
  }

  /** How often byte `c` occurs among the leaves made from the buckets below `k`. */
  lemma {:induction false} ByteLeavesSymAt(freq: seq<nat>, k: nat, c: uchar)
    requires |freq| == 256 && k <= 256
    ensures ForestSyms(ByteLeaves(freq, k))[c] == (if c < k && freq[c] > 0 then 1 else 0)
  {
    if k > 0 {
      ByteLeavesSymAt(freq, k - 1, c);
      var top: uchar := k - 1;
      ByteLeavesStep(freq, top);
      assert ForestSyms(ByteLeaves(freq, k))[c]
          == ForestSyms(ByteLeaves(freq, top))[c] + (if freq[top] > 0 && c == top then 1 else 0);
    }
  }

  /** Scanning bucket `top` adds its byte to the forest exactly when its count is positive. */
  lemma ByteLeavesStep(freq: seq<nat>, top: uchar)
    requires |freq| == 256
    ensures ForestSyms(ByteLeaves(freq, top + 1))
         == ForestSyms(ByteLeaves(freq, top)) + if freq[top] > 0 then multiset{top} else multiset{}
  {
    var prev := ByteLeaves(freq, top);
    if freq[top] > 0 {
      var f := prev + [Leaf(top, freq[top])];
      assert f[..|f| - 1] == prev;
      assert ByteLeaves(freq, top + 1) == f;
    } else {
      assert ByteLeaves(freq, top + 1) == prev;
    }
  }

  lemma {:induction false} ByteLeavesWeight(freq: seq<nat>, k: nat)
    requires |freq| == 256 && k <= 256
    ensures ForestWeight(ByteLeaves(freq, k)) == BucketSum(freq, k)
  {
    if k > 0 {
      ByteLeavesWeight(freq, k - 1);
      var prev := ByteLeaves(freq, k - 1);
      if freq[k - 1] > 0 {
        var f := prev + [Leaf(k - 1, freq[k - 1])];
        assert f[..|f| - 1] == prev;
      }
    }
  }

  lemma {:induction false} BucketSumBump(freq: seq<nat>, j: nat, k: nat)
    requires j < |freq| && k <= |freq|
    ensures BucketSum(freq[j := freq[j] + 1], k) == BucketSum(freq, k) + (if j < k then 1 else 0)
  {
    if k > 0 {
      BucketSumBump(freq, j, k - 1);
    }
  }

  lemma {:induction false} ZeroBuckets(z: seq<nat>, k: nat)
    requires k <= |z| && forall i :: 0 <= i < |z| ==> z[i] == 0
    ensures BucketSum(z, k) == 0
  {
    if k > 0 {
      ZeroBuckets(z, k - 1);
    }
  }

  lemma {:induction false} BucketSumIsLength(data: seq<uchar>)
    ensures BucketSum(ByteCounts(data), 256) == |data|
  {
    if data == [] {
      ZeroBuckets(ByteCounts(data), 256);
    } else {
      var prefix := data[..|data| - 1];
      var c := data[|data| - 1];
      BucketSumIsLength(prefix);
      BucketSumBump(ByteCounts(prefix), c, 256);
    }
  }

  /**
   * `buildHuffmanTree` of the byte variant: leaves only for bytes whose count is
   * positive, created in ascending byte order.  Same guarantees as the integer
   * variant.
   */
  function BuildHuffmanTreeBytes(data: seq<uchar>): (r: Option<Tree<uchar>>)
    ensures r.None? <==> data == []
    ensures r.Some? ==> DistinctLeaves(r.value)
    ensures r.Some? ==> WellFormed(r.value) && FreqsMatch(r.value, multiset(data))
    ensures r.Some? ==> forall c :: Syms(r.value)[c] == (if c in data then 1 else 0)
    ensures r.Some? ==> r.value.freq == |data|
  {
    ByteBuildFacts(data);
    var leaves := ByteLeaves(ByteCounts(data), 256);
    if leaves == [] then None else BuildFromLeaves(leaves)
  }

  lemma ByteBuildFacts(data: seq<uchar>)
    ensures var r := BuildFromLeaves(ByteLeaves(ByteCounts(data), 256));
      && (r.None? <==> data == [])
      && (r.Some? ==> DistinctLeaves(r.value))
      && (r.Some? ==> WellFormed(r.value) && FreqsMatch(r.value, multiset(data)))
      && (r.Some? ==> forall c :: Syms(r.value)[c] == (if c in data then 1 else 0))
      && (r.Some? ==> r.value.freq == |data|)
  {
    var leaves := ByteLeaves(ByteCounts(data), 256);
    ByteLeavesCover(data);
    ByteLeavesEmpty(data);
    if leaves != [] {
      var t := MergeAll(leaves);
      var m := multiset(data);
      assert FreqsMatch(t, m) by {
        ByteLeavesMatch(data);
        MergeAllKeepsFreqs(leaves, m);
      }
      assert t.freq == |data| by {
        ByteLeavesForest(ByteCounts(data), 256);
        BucketSumIsLength(data);
      }
      assert DistinctLeaves(t) by {
        forall c ensures AtMostOnce(Syms(t), c) {
          assert Syms(t)[c] == (if c in data then 1 else 0);
        }
        SingleCountsDistinct(t);
      }
    }
  }

  /** There are byte leaves exactly when there is data. */
  lemma ByteLeavesEmpty(data: seq<uchar>)
    requires forall c :: ForestSyms(ByteLeaves(ByteCounts(data), 256))[c] == (if c in data then 1 else 0)
    ensures ByteLeaves(ByteCounts(data), 256) == [] <==> data == []
  {
    var leaves := ByteLeaves(ByteCounts(data), 256);
    if data != [] {
      assert ForestSyms(leaves)[data[0]] == 1;
    }
    if leaves != [] {
      var last := leaves[|leaves| - 1];
      assert ForestSyms(leaves)[last.sym] >= Syms(last)[last.sym] == 1;
      assert last.sym in data;
    }
  }

  /** Each byte leaf is a well-formed leaf weighted by its byte's count. */
  lemma ByteLeavesMatch(data: seq<uchar>)
    ensures AllWellFormed(ByteLeaves(ByteCounts(data), 256))
    ensures AllFreqsMatch(ByteLeaves(ByteCounts(data), 256), multiset(data))
  {
    var freq := ByteCounts(data);
    var leaves := ByteLeaves(freq, 256);
    forall k | 0 <= k < |leaves| ensures WellFormed(leaves[k]) && FreqsMatch(leaves[k], multiset(data)) {
      var x := leaves[k];
      assert x.Leaf? && x.freq == freq[x.sym] > 0;
    }
  }

  /** The byte leaves hold each byte of the data once and nothing else. */
  lemma ByteLeavesCover(data: seq<uchar>)
    ensures forall c :: ForestSyms(ByteLeaves(ByteCounts(data), 256))[c] == (if c in data then 1 else 0)
  {
    var freq := ByteCounts(data);
    ByteLeavesForest(freq, 256);
    forall c: uchar ensures ForestSyms(ByteLeaves(freq, 256))[c] == (if c in data then 1 else 0) {
      assert freq[c] == multiset(data)[c];
    }
  }
}
