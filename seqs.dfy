/** Small facts about sequences used by both the crawler and the ranker. */
module Seqs {

  /** No element occurs twice. */
  predicate Distinct<T(==)>(s: seq<T>)
  {
    forall i, j :: 0 <= i < j < |s| ==> s[i] != s[j]
  }

  /** The set of the elements of `s`. */
  function Elements<T>(s: seq<T>): (r: set<T>)
    ensures s != [] ==> s[0] in r
  {
    set x | x in s
  }

  lemma ElementsSnoc<T>(s: seq<T>, x: T)
    ensures Elements(s + [x]) == Elements(s) + {x}
  {
  }

  /** Taking one more element of `s` adds that element to the prefix's set. */
  lemma ElementsPrefixStep<T>(s: seq<T>, i: int)
    requires 0 <= i < |s|
    ensures Elements(s[..i + 1]) == Elements(s[..i]) + {s[i]}
  {
    assert s[..i + 1] == s[..i] + [s[i]];
    ElementsSnoc(s[..i], s[i]);
  }

  /** A duplicate-free sequence has as many elements as its set. */
  lemma {:induction false} DistinctCardinality<T>(s: seq<T>)
    requires Distinct(s)
    ensures |Elements(s)| == |s|
  {
    if s != [] {
      var init := s[..|s| - 1];
      DistinctCardinality(init);
      assert Elements(s) == Elements(init) + {s[|s| - 1]};
      assert s[|s| - 1] !in Elements(init);
    }
  }

  /** `index` maps each element of `s` to its position and has no other key. */
  ghost predicate Indexed<T>(s: seq<T>, index: map<T, int>)
  {
    && (forall i :: 0 <= i < |s| ==> s[i] in index && index[s[i]] == i)
    && (forall x :: x in index ==> 0 <= index[x] < |s| && s[index[x]] == x)
  }

  /** An indexed sequence is duplicate-free and has exactly the keys of its index. */
  lemma IndexedDistinct<T>(s: seq<T>, index: map<T, int>)
    requires Indexed(s, index)
    ensures Distinct(s) && index.Keys == Elements(s) && |index| == |s|
  {
    DistinctCardinality(s);
    assert index.Keys == Elements(s);
  }

  /** Appending a new element at the next position keeps the index exact. */
  lemma IndexedSnoc<T>(s: seq<T>, index: map<T, int>, x: T)
    requires Indexed(s, index) && x !in index
    ensures Indexed(s + [x], index[x := |s|])
  {
  }

  lemma AppendAssoc<T>(a: seq<T>, b: seq<T>, c: seq<T>)
    ensures a + b + c == a + (b + c)
  {
  }
}
