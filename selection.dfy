/**
 * The ordering behind `topK`: (index, value) pairs compared by value alone and sorted with
 * the library's stable sort, so that pairs of equal value keep their index order. Read from
 * the end, the sorted pairs give the largest values first, ties broken towards the higher
 * index.
 */
module Selection {
  import opened Seqs

  /** `Pair`: a vertex index and its metric. */
  datatype Pair = Pair(index: int, value: real)

  /** `Pair.compareTo`: 0, 1 or -1 as the first value is equal to, above or below the second. */
  function CompareTo(a: Pair, b: Pair): (r: int)
    ensures r == 0 <==> a.value == b.value
    ensures r == 1 <==> a.value > b.value
    ensures r == -1 <==> a.value < b.value
  {
    if a.value == b.value then 0 else if a.value > b.value then 1 else -1
  }

  /** The comparison is antisymmetric and transitive, as `Comparable` requires of it. */
  lemma CompareToContract(a: Pair, b: Pair, c: Pair)
    ensures CompareTo(a, b) == -CompareTo(b, a)
    ensures CompareTo(a, b) <= 0 && CompareTo(b, c) <= 0 ==> CompareTo(a, c) <= 0
  {
  }

  /** Insertion into a sorted run: `x` goes before the first pair of greater value, so after its equals. */
  function Insert(x: Pair, s: seq<Pair>): (r: seq<Pair>)
    ensures |r| == |s| + 1
    ensures multiset(r) == multiset(s) + multiset{x}
  {
    if s == [] then [x]
    else if CompareTo(s[0], x) > 0 then [x] + s
    else
      assert s == [s[0]] + s[1..];
      [s[0]] + Insert(x, s[1..])
  }

  /** `Arrays.sort` on pairs: a stable sort by `CompareTo`, here insertion sort. */
  function SortPairs(s: seq<Pair>): (r: seq<Pair>)
    ensures |r| == |s|
    ensures multiset(r) == multiset(s)
  {
    if s == [] then []
    else
      assert s == s[..|s| - 1] + [s[|s| - 1]];
      Insert(s[|s| - 1], SortPairs(s[..|s| - 1]))
  }

  /** Lexicographic order on (value, index). */
  predicate Before(a: Pair, b: Pair)
  {
    a.value < b.value || (a.value == b.value && a.index < b.index)
  }

  predicate StrictlySorted(s: seq<Pair>)
  {
    forall i, j :: 0 <= i < j < |s| ==> Before(s[i], s[j])
  }

  /** `z` comes before every pair of `s`. */
  predicate BeforeAll(z: Pair, s: seq<Pair>)
  {
    forall i :: 0 <= i < |s| ==> Before(z, s[i])
  }

  lemma {:induction false} InsertBeforeAll(z: Pair, x: Pair, s: seq<Pair>)
    requires Before(z, x) && BeforeAll(z, s)
    ensures BeforeAll(z, Insert(x, s))
  {
    if s != [] && CompareTo(s[0], x) <= 0 {
      InsertBeforeAll(z, x, s[1..]);
    }
  }

  lemma {:induction false} InsertSorted(x: Pair, s: seq<Pair>)
    requires StrictlySorted(s)
    requires forall i :: 0 <= i < |s| && s[i].value == x.value ==> s[i].index < x.index
    ensures StrictlySorted(Insert(x, s))
  {
    if s != [] && CompareTo(s[0], x) <= 0 {
      InsertSorted(x, s[1..]);
      InsertBeforeAll(s[0], x, s[1..]);
    }
  }

  /** Pairs listed in increasing index order sort into strict (value, index) order: the sort is stable. */
  lemma {:induction false} SortPairsStable(s: seq<Pair>)
    requires forall i, j :: 0 <= i < j < |s| ==> s[i].index < s[j].index
    ensures StrictlySorted(SortPairs(s))
  {
    if s != [] {
      var init := s[..|s| - 1];
      var x := s[|s| - 1];
      SortPairsStable(init);
      var sorted := SortPairs(init);
      forall i | 0 <= i < |sorted|
        ensures sorted[i].index < x.index
      {
        assert sorted[i] in multiset(init);
        var m :| 0 <= m < |init| && init[m] == sorted[i];
      }
      InsertSorted(x, sorted);
    }
  }

  /** `allPairs` as `topK` fills it: pair i holds index i and the i-th metric. */
  function Pairs(data: seq<real>): (r: seq<Pair>)
    ensures |r| == |data|
  {
    seq(|data|, i requires 0 <= i < |data| => Pair(i, data[i]))
  }

  lemma SortedPairMember(data: seq<real>, p: Pair)
    requires p in SortPairs(Pairs(data))
    ensures 0 <= p.index < |data| && p.value == data[p.index]
  {
    assert p in multiset(Pairs(data));
  }

  /** The indices of the last `k` pairs, the last first. */
  function LastIndices(sorted: seq<Pair>, k: nat): (r: seq<int>)
    requires k <= |sorted|
    ensures |r| == k
  {
    seq(k, j requires 0 <= j < k => sorted[|sorted| - 1 - j].index)
  }

  /** `topK`'s picks: the indices of the last `k` stably sorted pairs, the last first. */
  function TopIndices(data: seq<real>, k: nat): (r: seq<int>)
    requires k <= |data|
    ensures |r| == k
  {
    LastIndices(SortPairs(Pairs(data)), k)
  }

  /** Vertex `i` ranks strictly ahead of vertex `j`: a larger metric, or an equal one and a higher index. */
  predicate Ahead(data: seq<real>, i: int, j: int)
    requires 0 <= i < |data| && 0 <= j < |data|
  {
    data[i] > data[j] || (data[i] == data[j] && i > j)
  }

  /**
   * `picked` holds the top vertices by metric, best first: valid indices, each strictly
   * ahead of those picked after it and of every vertex not picked.
   */
  ghost predicate IsTopSelection(data: seq<real>, picked: seq<int>)
  {
    && (forall a :: 0 <= a < |picked| ==> 0 <= picked[a] < |data|)
    && (forall a, b :: 0 <= a < b < |picked| ==> Ahead(data, picked[a], picked[b]))
    && (forall a, i :: 0 <= a < |picked| && 0 <= i < |data| && i !in picked ==> Ahead(data, picked[a], i))
  }

  /** The stably sorted pairs of `data`: every index once, in (value, index) order. */
  ghost predicate SortedPairsOf(data: seq<real>, sorted: seq<Pair>)
  {
    && |sorted| == |data|
    && StrictlySorted(sorted)
    && (forall q :: 0 <= q < |sorted| ==> 0 <= sorted[q].index < |data| && sorted[q].value == data[sorted[q].index])
    && multiset(sorted) == multiset(Pairs(data))
  }

  lemma SortPairsOf(data: seq<real>)
    ensures SortedPairsOf(data, SortPairs(Pairs(data)))
  {
    var sorted := SortPairs(Pairs(data));
    SortPairsStable(Pairs(data));
    forall q | 0 <= q < |sorted|
      ensures 0 <= sorted[q].index < |data| && sorted[q].value == data[sorted[q].index]
    {
      SortedPairMember(data, sorted[q]);
    }
  }

  /** A vertex outside the last `k` sorted pairs sorts before each of them. */
  lemma UnpickedBehind(data: seq<real>, sorted: seq<Pair>, k: nat, a: nat, i: int)
    requires SortedPairsOf(data, sorted) && a < k <= |data| && 0 <= i < |data|
    requires i !in LastIndices(sorted, k)
    ensures Ahead(data, LastIndices(sorted, k)[a], i)
  {
    var n := |data|;
    assert Pairs(data)[i] in multiset(sorted);
    forall p | n - k <= p < n
      ensures sorted[p].index != i
    {
      assert LastIndices(sorted, k)[n - 1 - p] == sorted[p].index;
    }
    var q :| 0 <= q < n && sorted[q] == Pair(i, data[i]);
    assert Before(sorted[q], sorted[n - 1 - a]);
  }

  /** Of two of the last sorted pairs, the later one is ahead. */
  lemma PickedInOrder(data: seq<real>, sorted: seq<Pair>, k: nat, a: nat, b: nat)
    requires SortedPairsOf(data, sorted) && a < b < k <= |data|
    ensures Ahead(data, LastIndices(sorted, k)[a], LastIndices(sorted, k)[b])
  {
    assert Before(sorted[|data| - 1 - b], sorted[|data| - 1 - a]);
  }

  /** The last `k` of the sorted pairs, read from the end, are a top selection. */
  lemma LastOfSortedSelect(data: seq<real>, sorted: seq<Pair>, k: nat)
    requires SortedPairsOf(data, sorted) && k <= |data|
    ensures IsTopSelection(data, LastIndices(sorted, k))
  {
    var picked := LastIndices(sorted, k);
    forall a, i | 0 <= a < k && 0 <= i < |data| && i !in picked
      ensures Ahead(data, picked[a], i)
    {
      UnpickedBehind(data, sorted, k, a, i);
    }
    forall a, b | 0 <= a < b < k
      ensures Ahead(data, picked[a], picked[b])
    {
      PickedInOrder(data, sorted, k, a, b);
    }
  }

  /** Reading `k` pairs from the end of the stably sorted pairs selects the top `k` vertices. */
  lemma TopIndicesSelect(data: seq<real>, k: nat)
    requires k <= |data|
    ensures IsTopSelection(data, TopIndices(data, k))
  {
    SortPairsOf(data);
    LastOfSortedSelect(data, SortPairs(Pairs(data)), k);
  }

  /** A top selection names distinct vertices with non-increasing metrics, equal metrics by falling index. */
  lemma TopSelectionOrder(data: seq<real>, picked: seq<int>)
    requires IsTopSelection(data, picked)
    ensures Distinct(picked)
    ensures forall a, b :: 0 <= a < b < |picked| ==> data[picked[a]] >= data[picked[b]]
    ensures forall a, b :: 0 <= a < b < |picked| && data[picked[a]] == data[picked[b]] ==> picked[a] > picked[b]
  {
    forall a, b | 0 <= a < b < |picked|
      ensures picked[a] != picked[b] && data[picked[a]] >= data[picked[b]]
    {
      assert Ahead(data, picked[a], picked[b]);
    }
  }
}
