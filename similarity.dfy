/** The Jaccard similarity of two sets of pages: the size of their intersection over the size of their union. */
module Similarity {

  function Jaccard(a: set<string>, b: set<string>): (r: real)
    requires a + b != {}
    ensures 0.0 <= r <= 1.0
  {
    CommonWithinAll(a, b);
    |a * b| as real / |a + b| as real
  }

  /** Fewer pages are common to both sets than belong to either. */
  lemma CommonWithinAll(a: set<string>, b: set<string>)
    ensures |a * b| <= |a + b|
  {
    assert a + b == (a * b) + ((a + b) - (a * b));
  }

  lemma JaccardSymmetric(a: set<string>, b: set<string>)
    requires a + b != {}
    ensures Jaccard(a, b) == Jaccard(b, a)
  {
    assert a * b == b * a && a + b == b + a;
  }

  /** The similarity is 1 exactly for equal sets. */
  lemma JaccardOne(a: set<string>, b: set<string>)
    requires a + b != {}
    ensures Jaccard(a, b) == 1.0 <==> a == b
  {
    if Jaccard(a, b) == 1.0 {
      assert |a * b| == |a + b|;
      assert a + b == (a * b) + ((a + b) - (a * b));
      assert (a + b) - (a * b) == {};
    }
  }

  /** The similarity is 0 exactly for disjoint sets. */
  lemma JaccardZero(a: set<string>, b: set<string>)
    requires a + b != {}
    ensures Jaccard(a, b) == 0.0 <==> a * b == {}
  {
    if a * b != {} {
      assert |a * b| > 0;
    }
  }
}
