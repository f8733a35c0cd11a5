/**
 * The arithmetic of one PageRank step over `real`, an abstraction of `double`: every page
 * starts with the teleport share (1-β)/n, a page without out-edges spreads β times its rank
 * over all n pages, and any other page splits β times its rank evenly among its out-edges.
 * Pages are dense indices 0..n-1; `adjacency[u]` lists the index of the target of every
 * out-edge of `u`, once per edge. Also the L1 distance that decides convergence.
 */
module RankMath {

  /** The damping factor. */
  const BETA: real := 0.85

  function Sum(v: seq<real>): real
  {
    if v == [] then 0.0 else Sum(v[..|v| - 1]) + v[|v| - 1]
  }

  /** A vector of `n` equal entries. */
  function Uniform(n: nat, x: real): (r: seq<real>)
    ensures |r| == n
  {
    seq(n, _ => x)
  }

  /** `x` added to every entry. */
  function AddToAll(v: seq<real>, x: real): (r: seq<real>)
    ensures |r| == |v|
  {
    seq(|v|, i requires 0 <= i < |v| => v[i] + x)
  }

  /** Every target is an index of a vector of length `n`. */
  predicate InRange(targets: seq<int>, n: nat)
  {
    forall j :: 0 <= j < |targets| ==> 0 <= targets[j] < n
  }

  /** `x` added once per occurrence of an index in `targets`, in order. */
  function SpreadTo(v: seq<real>, targets: seq<int>, x: real): (r: seq<real>)
    requires InRange(targets, |v|)
    ensures |r| == |v|
  {
    if targets == [] then v
    else
      var w := SpreadTo(v, targets[..|targets| - 1], x);
      var t := targets[|targets| - 1];
      w[t := w[t] + x]
  }

  /**
   * What page `u`, of rank `pu`, passes on in one step, added to `v`: β·pu split evenly
   * among its out-edges, or spread over all pages when it has none.
   */
  function Share(v: seq<real>, pu: real, targets: seq<int>): (r: seq<real>)
    requires |v| > 0 && InRange(targets, |v|)
    ensures |r| == |v|
  {
    if |targets| == 0 then AddToAll(v, BETA * pu / |v| as real)
    else SpreadTo(v, targets, BETA * pu / |targets| as real)
  }

  /** Every adjacency list only names pages of the graph. */
  predicate WellFormed(adjacency: seq<seq<int>>)
  {
    forall u :: 0 <= u < |adjacency| ==> InRange(adjacency[u], |adjacency|)
  }

  /** The shares of pages 0..k-1, in order, added to `v`. */
  function StepFrom(v: seq<real>, p: seq<real>, adjacency: seq<seq<int>>, k: nat): (r: seq<real>)
    requires |v| == |p| == |adjacency| > 0 && WellFormed(adjacency) && k <= |p|
    ensures |r| == |v|
  {
    if k == 0 then v else Share(StepFrom(v, p, adjacency, k - 1), p[k - 1], adjacency[k - 1])
  }

  /** The teleport share of each of `n` pages. */
  function Teleport(n: nat): real
    requires n > 0
  {
    (1.0 - BETA) / n as real
  }

  /** One step of the random walk with teleports, from rank vector `p`. */
  function Step(p: seq<real>, adjacency: seq<seq<int>>): (r: seq<real>)
    requires |p| == |adjacency| && WellFormed(adjacency)
    ensures |r| == |p|
  {
    if |p| == 0 then [] else StepFrom(Uniform(|p|, Teleport(|p|)), p, adjacency, |p|)
  }

  /** Every entry is at least `bound`. */
  predicate AtLeast(v: seq<real>, bound: real)
  {
    forall i :: 0 <= i < |v| ==> v[i] >= bound
  }

  lemma {:induction false} SumAddAt(v: seq<real>, i: nat, x: real)
    requires i < |v|
    ensures Sum(v[i := v[i] + x]) == Sum(v) + x
  {
    var w := v[i := v[i] + x];
    assert w[..|w| - 1] == if i == |v| - 1 then v[..|v| - 1] else v[..|v| - 1][i := v[i] + x];
    if i < |v| - 1 {
      SumAddAt(v[..|v| - 1], i, x);
    }
  }

  lemma {:induction false} SumAddToAll(v: seq<real>, x: real)
    ensures Sum(AddToAll(v, x)) == Sum(v) + |v| as real * x
  {
    if v != [] {
      var init := v[..|v| - 1];
      assert AddToAll(v, x)[..|v| - 1] == AddToAll(init, x);
      SumAddToAll(init, x);
    }
  }

  lemma {:induction false} SumSpreadTo(v: seq<real>, targets: seq<int>, x: real)
    requires InRange(targets, |v|)
    ensures Sum(SpreadTo(v, targets, x)) == Sum(v) + |targets| as real * x
  {
    if targets != [] {
      var init := targets[..|targets| - 1];
      SumSpreadTo(v, init, x);
      SumAddAt(SpreadTo(v, init, x), targets[|targets| - 1], x);
    }
  }

  lemma SplitEvenly(a: real, n: nat)
    requires n > 0
    ensures n as real * (a / n as real) == a
  {
  }

  /** A page without out-edges spreads exactly β times its rank. */
  lemma DanglingShareSum(v: seq<real>, pu: real)
    requires |v| > 0
    ensures Sum(AddToAll(v, BETA * pu / |v| as real)) == Sum(v) + BETA * pu
  {
    SumAddToAll(v, BETA * pu / |v| as real);
    SplitEvenly(BETA * pu, |v|);
  }

  /** A page with out-edges passes on exactly β times its rank along them. */
  lemma LinkShareSum(v: seq<real>, pu: real, targets: seq<int>)
    requires |targets| > 0 && InRange(targets, |v|)
    ensures Sum(SpreadTo(v, targets, BETA * pu / |targets| as real)) == Sum(v) + BETA * pu
  {
    SumSpreadTo(v, targets, BETA * pu / |targets| as real);
    SplitEvenly(BETA * pu, |targets|);
  }

  /** A page passes on exactly β times its rank. */
  lemma SumShare(v: seq<real>, pu: real, targets: seq<int>)
    requires |v| > 0 && InRange(targets, |v|)
    ensures Sum(Share(v, pu, targets)) == Sum(v) + BETA * pu
  {
    if |targets| == 0 {
      DanglingShareSum(v, pu);
    } else {
      LinkShareSum(v, pu, targets);
    }
  }

  lemma {:induction false} SumStepFrom(v: seq<real>, p: seq<real>, adjacency: seq<seq<int>>, k: nat)
    requires |v| == |p| == |adjacency| > 0 && WellFormed(adjacency) && k <= |p|
    ensures Sum(StepFrom(v, p, adjacency, k)) == Sum(v) + BETA * Sum(p[..k])
  {
    if k > 0 {
      SumStepFrom(v, p, adjacency, k - 1);
      SumShare(StepFrom(v, p, adjacency, k - 1), p[k - 1], adjacency[k - 1]);
      assert p[..k][..k - 1] == p[..k - 1];
    }
  }

  lemma {:induction false} SumUniform(n: nat, x: real)
    ensures Sum(Uniform(n, x)) == n as real * x
  {
    if n > 0 {
      assert Uniform(n, x)[..n - 1] == Uniform(n - 1, x);
      SumUniform(n - 1, x);
    }
  }

  /** The teleport shares of all pages add up to 1-β. */
  lemma TeleportMass(n: nat)
    requires n > 0
    ensures Sum(Uniform(n, Teleport(n))) == 1.0 - BETA
  {
    SumUniform(n, Teleport(n));
    SplitEvenly(1.0 - BETA, n);
  }

  /**
   * Rank mass after one step: the teleport shares add up to 1-β and the pages pass on β
   * times the mass they hold; so a rank vector summing to 1 steps to one summing to 1.
   */
  lemma StepSum(p: seq<real>, adjacency: seq<seq<int>>)
    requires |p| == |adjacency| > 0 && WellFormed(adjacency)
    ensures Sum(Step(p, adjacency)) == (1.0 - BETA) + BETA * Sum(p)
  {
    var n := |p|;
    TeleportMass(n);
    SumStepFrom(Uniform(n, Teleport(n)), p, adjacency, n);
    assert p[..n] == p;
  }

  /** The uniform start vector holds mass 1. */
  lemma UniformSum(n: nat)
    requires n > 0
    ensures Sum(Uniform(n, 1.0 / n as real)) == 1.0
  {
    SumUniform(n, 1.0 / n as real);
    SplitEvenly(1.0, n);
  }

  lemma {:induction false} SpreadToAtLeast(v: seq<real>, targets: seq<int>, x: real, bound: real)
    requires InRange(targets, |v|) && AtLeast(v, bound) && x >= 0.0
    ensures AtLeast(SpreadTo(v, targets, x), bound)
  {
    if targets != [] {
      SpreadToAtLeast(v, targets[..|targets| - 1], x, bound);
    }
  }

  lemma {:induction false} StepFromAtLeast(v: seq<real>, p: seq<real>, adjacency: seq<seq<int>>, k: nat, bound: real)
    requires |v| == |p| == |adjacency| > 0 && WellFormed(adjacency) && k <= |p|
    requires AtLeast(v, bound) && AtLeast(p, 0.0)
    ensures AtLeast(StepFrom(v, p, adjacency, k), bound)
  {
    if k > 0 {
      var w := StepFrom(v, p, adjacency, k - 1);
      StepFromAtLeast(v, p, adjacency, k - 1, bound);
      if |adjacency[k - 1]| > 0 {
        SpreadToAtLeast(w, adjacency[k - 1], BETA * p[k - 1] / |adjacency[k - 1]| as real, bound);
      }
    }
  }

  /** From a non-negative rank vector, every page ends a step with at least its teleport share. */
  lemma StepAtLeastTeleport(p: seq<real>, adjacency: seq<seq<int>>)
    requires |p| == |adjacency| > 0 && WellFormed(adjacency) && AtLeast(p, 0.0)
    ensures AtLeast(Step(p, adjacency), Teleport(|p|))
  {
    StepFromAtLeast(Uniform(|p|, Teleport(|p|)), p, adjacency, |p|, Teleport(|p|));
  }

  /** In a non-negative vector no entry exceeds the total. */
  lemma {:induction false} EntriesWithinSum(v: seq<real>)
    requires AtLeast(v, 0.0)
    ensures Sum(v) >= 0.0
    ensures forall i :: 0 <= i < |v| ==> v[i] <= Sum(v)
  {
    if v != [] {
      EntriesWithinSum(v[..|v| - 1]);
    }
  }

  lemma TeleportPositive(n: nat)
    requires n > 0
    ensures Teleport(n) > 0.0
  {
  }

  /** `computeRank`'s start: every one of `n` pages with rank 1/n. */
  function Start(n: nat): (r: seq<real>)
    ensures |r| == n
  {
    if n == 0 then [] else Uniform(n, 1.0 / n as real)
  }

  /** The rank vector after `k` steps of the walk from the start vector. */
  function Iterate(adjacency: seq<seq<int>>, k: nat): (r: seq<real>)
    requires WellFormed(adjacency)
    ensures |r| == |adjacency|
  {
    if k == 0 then Start(|adjacency|) else Step(Iterate(adjacency, k - 1), adjacency)
  }

  /** How far step `k` moved the rank vector, in L1 distance. */
  function Moved(adjacency: seq<seq<int>>, k: nat): real
    requires WellFormed(adjacency) && k >= 1
  {
    L1(Iterate(adjacency, k), Iterate(adjacency, k - 1))
  }

  /**
   * Every iterate is a probability vector: non-negative entries summing to 1, and after
   * at least one step every page holds at least its teleport share.
   */
  lemma {:induction false} IterateMass(adjacency: seq<seq<int>>, k: nat)
    requires WellFormed(adjacency) && |adjacency| > 0
    ensures Sum(Iterate(adjacency, k)) == 1.0 && AtLeast(Iterate(adjacency, k), 0.0)
    ensures k >= 1 ==> AtLeast(Iterate(adjacency, k), Teleport(|adjacency|))
  {
    var n := |adjacency|;
    if k == 0 {
      UniformSum(n);
    } else {
      var p := Iterate(adjacency, k - 1);
      IterateMass(adjacency, k - 1);
      StepSum(p, adjacency);
      StepAtLeastTeleport(p, adjacency);
      TeleportPositive(n);
    }
  }

  function Abs(x: real): real
  {
    if x < 0.0 then -x else x
  }

  /** The L1 distance: the sum of the absolute differences of corresponding entries. */
  function L1(a: seq<real>, b: seq<real>): real
    requires |a| == |b|
  {
    if |a| == 0 then 0.0 else L1(a[..|a| - 1], b[..|b| - 1]) + Abs(a[|a| - 1] - b[|b| - 1])
  }

  lemma {:induction false} L1NonNegative(a: seq<real>, b: seq<real>)
    requires |a| == |b|
    ensures L1(a, b) >= 0.0
  {
    if |a| > 0 {
      L1NonNegative(a[..|a| - 1], b[..|b| - 1]);
    }
  }

  lemma {:induction false} L1Symmetric(a: seq<real>, b: seq<real>)
    requires |a| == |b|
    ensures L1(a, b) == L1(b, a)
  {
    if |a| > 0 {
      L1Symmetric(a[..|a| - 1], b[..|b| - 1]);
    }
  }

  /** The distance is zero exactly between equal vectors. */
  lemma {:induction false} L1ZeroIffEqual(a: seq<real>, b: seq<real>)
    requires |a| == |b|
    ensures L1(a, b) == 0.0 <==> a == b
  {
    if |a| > 0 {
      var m := |a| - 1;
      L1ZeroIffEqual(a[..m], b[..m]);
      L1NonNegative(a[..m], b[..m]);
      if L1(a, b) == 0.0 {
        assert a == a[..m] + [a[m]] && b == b[..m] + [b[m]];
      }
    }
  }
}
