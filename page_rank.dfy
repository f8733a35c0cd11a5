/**
 * The ranker: loads the crawler's edge-list file into out- and in-adjacency maps and a
 * dense vertex index, runs the PageRank power iteration until two successive rank vectors
 * are within `epsilon` in L1 distance, and answers degree, rank, top-k and Jaccard queries.
 */
module Ranking {
  import opened Wrappers
  import opened Seqs
  import opened JavaText
  import opened GraphFile
  import opened Adjacency
  import opened RankMath
  import opened Selection
  import opened Similarity

  /** The exceptions the queries throw. */
  datatype QueryError =
    | NegativeArraySize  // `new String[k]` with k < 0
    | IndexOutOfBounds   // more pages asked for than there are vertices
    | EmptyPages         // `computeJac` on an empty list

  /**
   * What `readGraph` makes of a file: the trimmed first line as the declared count, then
   * the edge lines.
   */
  ghost function Load(lines: seq<string>): Result<Parsed, LoadError>
  {
    if |lines| == 0 then Failure(EmptyFile)
    else
      match ParseInt(Trim(lines[0]))
      case None => Failure(BadVertexCount)
      case Some(declared) => LoadEdges(lines[1..], declared)
  }

  /**
   * `readGraph` past the first line: every edge line must split into two pieces, the count
   * sizes the vertex array so it must not be negative, and the array must hold every
   * distinct endpoint.
   */
  ghost function LoadEdges(body: seq<string>, declared: int): Result<Parsed, LoadError>
  {
    var bad := FirstMalformed(body, 0);
    if bad < |body| then Failure(MalformedEdge(bad + 1))
    else
      var edges := ParseEdges(body);
      if declared < 0 then Failure(NegativeVertexCount)
      else if |Endpoints(edges)| > declared then Failure(TooManyVertices(declared, |Endpoints(edges)|))
      else Success(Parsed(declared, edges))
  }

  /**
   * Loading is parsing plus the two checks on the vertex array: a file that loads parses to
   * the same declared count and edges, a file that does not parse fails to load with the
   * parser's error, and a parsed file fails to load only on a negative count or too many
   * vertices.
   */
  lemma LoadParses(lines: seq<string>)
    ensures Load(lines).Success? ==> ParseFile(lines) == Load(lines)
    ensures ParseFile(lines).Failure? ==> Load(lines) == ParseFile(lines)
    ensures ParseFile(lines).Success? && Load(lines).Failure? ==>
      var p := ParseFile(lines).value;
      || (p.declared < 0 && Load(lines).error == NegativeVertexCount)
      || (0 <= p.declared < |Endpoints(p.edges)| && Load(lines).error == TooManyVertices(p.declared, |Endpoints(p.edges)|))
  {
    if |lines| > 0 {
      var count := ParseInt(Trim(lines[0]));
      if count.Some? {
        assert Load(lines) == LoadEdges(lines[1..], count.value);
      }
    }
  }

  /**
   * `rank` is the iterate after `steps` steps, the first step that moved the vector by at
   * most `epsilon`.
   */
  ghost predicate Converged(graph: seq<seq<int>>, rank: seq<real>, steps: int, epsilon: real)
    requires WellFormed(graph)
  {
    && steps >= 1
    && rank == Iterate(graph, steps)
    && Moved(graph, steps) <= epsilon
    && StillMoving(graph, steps - 1, epsilon)
  }

  /** Each of the first `steps` steps moved the vector by more than `epsilon`. */
  ghost predicate StillMoving(graph: seq<seq<int>>, steps: int, epsilon: real)
    requires WellFormed(graph)
  {
    forall s :: 1 <= s <= steps ==> Moved(graph, s) > epsilon
  }

  lemma StillMovingNext(graph: seq<seq<int>>, steps: nat, epsilon: real)
    requires WellFormed(graph) && StillMoving(graph, steps, epsilon) && Moved(graph, steps + 1) > epsilon
    ensures StillMoving(graph, steps + 1, epsilon)
  {
  }

  /** A numbering of the vertices of `edges`, as `verticesArray` and `verticesIndex` hold it. */
  ghost predicate Numbering(edges: seq<Edge>, vs: seq<string>, idx: map<string, int>)
  {
    Indexed(vs, idx) && idx.Keys == Endpoints(edges)
  }

  /**
   * With the vertices numbered by `vs`, the walk on the graph of `edges` moves the vector
   * by more than `epsilon` at each of its first `steps` steps.
   */
  ghost predicate DivergesUnder(edges: seq<Edge>, vs: seq<string>, idx: map<string, int>, steps: int, epsilon: real)
  {
    && Numbering(edges, vs, idx)
    && WellFormed(IndexGraph(vs, idx, OutLists(edges)))
    && StillMoving(IndexGraph(vs, idx, OutLists(edges)), steps, epsilon)
  }

  /** Under some numbering of its vertices, the walk on the graph of `edges` moves by more than `epsilon` at each of its first `steps` steps. */
  ghost predicate Diverges(edges: seq<Edge>, steps: int, epsilon: real)
  {
    exists vs, idx :: DivergesUnder(edges, vs, idx, steps, epsilon)
  }

  lemma DivergesOf(edges: seq<Edge>, vs: seq<string>, idx: map<string, int>, steps: int, epsilon: real)
    requires DivergesUnder(edges, vs, idx, steps, epsilon)
    ensures Diverges(edges, steps, epsilon)
  {
  }

  /** One more step of the walk gives the next iterate, and its distance from the last is how far that step moved. */
  lemma IterateNext(graph: seq<seq<int>>, s: nat, p: seq<real>, next: seq<real>)
    requires WellFormed(graph) && p == Iterate(graph, s) && next == Step(p, graph)
    ensures next == Iterate(graph, s + 1)
    ensures L1(next, p) == Moved(graph, s + 1)
  {
  }

  /** The dense index of every identifier in `keys`, -1 for one that has none. */
  function Lookup(index: map<string, int>, keys: seq<string>): (r: seq<int>)
    ensures |r| == |keys|
  {
    seq(|keys|, j requires 0 <= j < |keys| => if keys[j] in index then index[keys[j]] else -1)
  }

  /** The dense successor indices of vertex `v`, one per out-edge in list order. */
  function Successors(graphOut: Lists, index: map<string, int>, v: string): (r: seq<int>)
    ensures |r| == if v in graphOut then |graphOut[v]| else 0
  {
    if v !in graphOut then [] else Lookup(index, graphOut[v])
  }

  /** The pages at the given indices of `vertices`. */
  function PagesAt(vertices: seq<string>, picked: seq<int>): (r: seq<string>)
    requires forall a :: 0 <= a < |picked| ==> 0 <= picked[a] < |vertices|
    ensures |r| == |picked|
  {
    seq(|picked|, a requires 0 <= a < |picked| => vertices[picked[a]])
  }

  /** Every vertex's in-degree, by vertex index. */
  ghost function InDegrees(edges: seq<Edge>, vertices: seq<string>): (r: seq<real>)
    ensures |r| == |vertices|
  {
    seq(|vertices|, i requires 0 <= i < |vertices| => |SourcesOf(edges, vertices[i])| as real)
  }

  /** Every vertex's out-degree, by vertex index. */
  ghost function OutDegrees(edges: seq<Edge>, vertices: seq<string>): (r: seq<real>)
    ensures |r| == |vertices|
  {
    seq(|vertices|, i requires 0 <= i < |vertices| => |TargetsOf(edges, vertices[i])| as real)
  }

  /** The graph over dense indices: entry u lists the successors of `vertices[u]`. */
  function IndexGraph(vertices: seq<string>, index: map<string, int>, graphOut: Lists): (r: seq<seq<int>>)
    ensures |r| == |vertices|
  {
    seq(|vertices|, u requires 0 <= u < |vertices| => Successors(graphOut, index, vertices[u]))
  }

  /** With every list naming only indexed vertices, the index graph names only valid indices. */
  lemma IndexGraphWellFormed(vertices: seq<string>, index: map<string, int>, graphOut: Lists)
    requires Indexed(vertices, index) && ListsWithin(graphOut, index.Keys)
    ensures WellFormed(IndexGraph(vertices, index, graphOut))
  {
  }

  class PageRank {
    const epsilon: real
    var graphOut: Lists
    var graphIn: Lists
    /** The filled slots of `verticesArray`; any further slots up to `numOfVertices` are null. */
    var verticesArray: seq<string>
    var verticesIndex: map<string, int>
    var numOfVertices: int
    var numOfEdges: int
    var rankVector: seq<real>
    var numberOfSteps: nat
    /** The edges read, in file order. */
    ghost var edges: seq<Edge>

    /** Nothing read yet. */
    ghost predicate Empty()
      reads this
    {
      && graphOut == map[] && graphIn == map[] && verticesIndex == map[]
      && verticesArray == [] && numOfEdges == 0 && edges == [] && numberOfSteps == 0
    }

    /** The maps, the edge count and the vertex index agree with the edges read. */
    ghost predicate Loaded()
      reads this
    {
      && graphOut == OutLists(edges)
      && graphIn == InLists(edges)
      && numOfEdges == |edges|
      && |verticesArray| <= numOfVertices
      && Indexed(verticesArray, verticesIndex)
      && verticesIndex.Keys == Endpoints(edges)
    }

    /** Loaded with no null slot in the vertex array. */
    ghost predicate Complete()
      reads this
    {
      Loaded() && |verticesArray| == numOfVertices
    }

    /** The graph the random walk runs on. */
    ghost function Graph(): (r: seq<seq<int>>)
      reads this
      requires Complete()
      ensures |r| == numOfVertices && WellFormed(r)
    {
      ListsNameVertices(edges);
      IndexGraphWellFormed(verticesArray, verticesIndex, graphOut);
      IndexGraph(verticesArray, verticesIndex, graphOut)
    }

    /**
     * A converged rank vector: the iterate after `numberOfSteps` steps, the first step that
     * moved the vector by at most `epsilon`.
     */
    ghost predicate Ranked()
      reads this
    {
      Complete() && Converged(Graph(), rankVector, numberOfSteps, epsilon)
    }

    /** A converged rank vector is a probability vector, every page holding at least its teleport share. */
    lemma RankedMass()
      requires Ranked()
      ensures AtLeast(rankVector, 0.0)
      ensures numOfVertices > 0 ==> Sum(rankVector) == 1.0 && AtLeast(rankVector, Teleport(numOfVertices))
    {
      if numOfVertices > 0 {
        IterateMass(Graph(), numberOfSteps);
      }
    }

    constructor Init(epsilon: real)
      ensures Empty() && this.epsilon == epsilon
    {
      this.epsilon := epsilon;
      graphOut := map[];
      graphIn := map[];
      verticesArray := [];
      verticesIndex := map[];
      numOfVertices := 0;
      numOfEdges := 0;
      rankVector := [];
      numberOfSteps := 0;
      edges := [];
    }

    /**
     * `readGraph`: the declared count from the first line, then the edge lines, then the
     * distinct endpoints numbered in the set's iteration order. On success the state is the
     * load of the file.
     */
    method ReadGraph(lines: seq<string>) returns (r: Result<int, LoadError>)
      requires Empty()
      modifies this`graphOut, this`graphIn, this`edges, this`numOfEdges, this`verticesIndex, this`verticesArray, this`numOfVertices
      ensures Load(lines).Failure? ==> r == Failure(Load(lines).error)
      ensures Load(lines).Success? ==>
        && r == Success(Load(lines).value.declared)
        && numOfVertices == r.value
        && edges == Load(lines).value.edges
        && Loaded()
    {
      if |lines| == 0 {
        return Failure(EmptyFile);
      }
      var parsed := ParseInt(Trim(lines[0]));
      if parsed.None? {
        return Failure(BadVertexCount);
      }
      var read := ReadEdges(lines[1..]);
      if read.Failure? {
        return Failure(read.error);
      }
      r := IndexAll(read.value, parsed.value);
    }

    /**
     * `readGraph` after the edge loop: the declared count sizes the vertex array, so it must
     * not be negative, and the array must hold every distinct endpoint.
     */
    method IndexAll(vertices: set<string>, declared: int) returns (r: Result<int, LoadError>)
      requires graphOut == OutLists(edges) && graphIn == InLists(edges) && numOfEdges == |edges|
      requires vertices == Endpoints(edges) && verticesIndex == map[]
      modifies this`verticesIndex, this`verticesArray, this`numOfVertices
      ensures declared < 0 ==> r == Failure(NegativeVertexCount)
      ensures 0 <= declared < |vertices| ==> r == Failure(TooManyVertices(declared, |vertices|))
      ensures 0 <= declared && |vertices| <= declared ==> r == Success(declared) && numOfVertices == declared && Loaded()
    {
      if declared < 0 {
        return Failure(NegativeVertexCount);
      }
      var indexed := IndexVertices(vertices, declared);
      if indexed.Failure? {
        return Failure(indexed.error);
      }
      numOfVertices := declared;
      return Success(declared);
    }

    /** The edge loop of `readGraph`: every line split on a space and read as an edge, in order. */
    method ReadEdges(body: seq<string>) returns (r: Result<set<string>, LoadError>)
      requires graphOut == map[] && graphIn == map[] && edges == [] && numOfEdges == 0
      modifies this`graphOut, this`graphIn, this`edges, this`numOfEdges
      ensures FirstMalformed(body, 0) < |body| ==> r == Failure(MalformedEdge(FirstMalformed(body, 0) + 1))
      ensures FirstMalformed(body, 0) == |body| ==>
        && edges == ParseEdges(body)
        && r == Success(Endpoints(edges))
        && graphOut == OutLists(edges) && graphIn == InLists(edges) && numOfEdges == |edges|
    {
      var vertices: set<string> := {};
      var i := 0;
      while i < |body|
        invariant 0 <= i <= |body|
        invariant |edges| == i && ParsedPrefix(body, edges)
        invariant graphOut == OutLists(edges) && graphIn == InLists(edges)
        invariant vertices == Endpoints(edges) && numOfEdges == i
      {
        ghost var before := edges;
        var links := ReadEdgeLine(body[i]);
        if links.None? {
          MalformedAt(body, edges);
          return Failure(MalformedEdge(i + 1));
        }
        ReadOneMore(before, links.value);
        ParsedPrefixSnoc(body, before, links.value);
        vertices := vertices + {links.value.0, links.value.1};
        i := i + 1;
      }
      AllWellFormed(body, edges);
      return Success(vertices);
    }

    /** One pass of the edge loop: the line counted, split on a space, and read as an edge when it has two pieces. */
    method ReadEdgeLine(line: string) returns (e: Option<Edge>)
      modifies this`graphOut, this`graphIn, this`edges, this`numOfEdges
      ensures e == ParseEdgeLine(line)
      ensures numOfEdges == old(numOfEdges) + 1
      ensures e.None? ==> edges == old(edges) && graphOut == old(graphOut) && graphIn == old(graphIn)
      ensures e.Some? ==>
        && edges == old(edges) + [e.value]
        && graphOut == Append(old(graphOut), e.value.0, e.value.1)
        && graphIn == Append(old(graphIn), e.value.1, e.value.0)
    {
      numOfEdges := numOfEdges + 1;
      var links := Split(line, " ");
      if |links| < 2 {
        return None;
      }
      ReadEdge(links[0], links[1]);
      return Some((links[0], links[1]));
    }

    /**
     * `verticesArray` of the declared size filled with the vertices in iteration order,
     * `verticesIndex` mapping each to its slot; an overflowing slot fails.
     */
    method IndexVertices(vertices: set<string>, declared: nat) returns (r: Result<int, LoadError>)
      requires verticesIndex == map[]
      modifies this`verticesIndex, this`verticesArray
      ensures |vertices| > declared ==> r == Failure(TooManyVertices(declared, |vertices|))
      ensures |vertices| <= declared ==>
        r.Success? && Indexed(verticesArray, verticesIndex) && verticesIndex.Keys == vertices && |verticesArray| <= declared
    {
      var slots := new string[declared];
      var remaining := vertices;
      var index := 0;
      while remaining != {}
        invariant remaining <= vertices && index + |remaining| == |vertices|
        invariant 0 <= index <= declared
        invariant verticesIndex.Keys == vertices - remaining
        invariant Indexed(slots[..index], verticesIndex)
        decreases |remaining|
      {
        var key :| key in remaining;
        if index == declared {
          return Failure(TooManyVertices(declared, |vertices|));
        }
        IndexedSnoc(slots[..index], verticesIndex, key);
        verticesIndex := verticesIndex[key := index];
        slots[index] := key;
        assert slots[..index + 1] == slots[..index] + [key];
        index := index + 1;
        remaining := remaining - {key};
      }
      verticesArray := slots[..index];
      return Success(index);
    }

    /** One edge line `u v`: v appended to u's out-list and u to v's in-list. */
    method ReadEdge(u: string, v: string)
      modifies this`graphOut, this`graphIn, this`edges
      ensures edges == old(edges) + [(u, v)]
      ensures graphOut == Append(old(graphOut), u, v) && graphIn == Append(old(graphIn), v, u)
    {
      if u in graphOut {
        graphOut := graphOut[u := graphOut[u] + [v]];
      } else {
        graphOut := graphOut[u := [v]];
      }
      if v in graphIn {
        graphIn := graphIn[v := graphIn[v] + [u]];
      } else {
        graphIn := graphIn[v := [u]];
      }
      edges := edges + [(u, v)];
    }

    /**
     * The constructor: the file read, then the rank vector computed. A declared count above
     * the number of distinct vertices leaves null slots at the end of `verticesArray`, and
     * the first step of the walk fails on the first of them; `maxSteps` bounds the iteration.
     */
    static method Open(lines: seq<string>, epsilon: real, maxSteps: nat) returns (r: Result<PageRank, LoadError>)
      ensures Load(lines).Failure? ==> r == Failure(Load(lines).error)
      ensures Load(lines).Success? && |Endpoints(Load(lines).value.edges)| < Load(lines).value.declared ==>
        r == Failure(NullVertex)
      ensures r.Failure? && Load(lines).Success? && |Endpoints(Load(lines).value.edges)| == Load(lines).value.declared ==>
        r == Failure(NotConverged)
      ensures r == Failure(NotConverged) ==>
        && Load(lines).Success? && |Endpoints(Load(lines).value.edges)| == Load(lines).value.declared
        && Diverges(Load(lines).value.edges, maxSteps, epsilon)
      ensures (&& Load(lines).Success? && |Endpoints(Load(lines).value.edges)| == Load(lines).value.declared
               && !Diverges(Load(lines).value.edges, maxSteps, epsilon))
        ==> r.Success?
      ensures r.Success? ==>
        && Load(lines).Success?
        && fresh(r.value)
        && r.value.Ranked()
        && r.value.epsilon == epsilon
        && r.value.edges == Load(lines).value.edges
        && r.value.numOfVertices == Load(lines).value.declared
        && r.value.numberOfSteps <= maxSteps
    {
      var ranker := new PageRank.Init(epsilon);
      var read := ranker.ReadGraph(lines);
      if read.Failure? {
        return Failure(read.error);
      }
      var e := ranker.Finish(maxSteps);
      if e.Some? {
        return Failure(e.value);
      }
      return Success(ranker);
    }

    /**
     * The constructor after a successful read: the walk fails on the first null slot of
     * `verticesArray` when fewer vertices than declared exist, and otherwise the rank
     * vector is computed.
     */
    method Finish(maxSteps: nat) returns (e: Option<LoadError>)
      requires Loaded() && numberOfSteps == 0
      modifies this`rankVector, this`numberOfSteps
      ensures |Endpoints(edges)| < numOfVertices ==> e == Some(NullVertex)
      ensures e.Some? && |Endpoints(edges)| == numOfVertices ==> e == Some(NotConverged)
      ensures e == Some(NotConverged) ==> |Endpoints(edges)| == numOfVertices && Diverges(edges, maxSteps, epsilon)
      ensures e.None? ==> Ranked() && numberOfSteps <= maxSteps
    {
      IndexedDistinct(verticesArray, verticesIndex);
      if |verticesArray| < numOfVertices {
        return Some(NullVertex);
      }
      var converged := ComputeRank(maxSteps);
      if !converged {
        assert DivergesUnder(edges, verticesArray, verticesIndex, maxSteps, epsilon);
        DivergesOf(edges, verticesArray, verticesIndex, maxSteps, epsilon);
        return Some(NotConverged);
      }
      return None;
    }

    /** `pageRankOf`: the rank of a vertex, none for an identifier that is not one. */
    function PageRankOf(url: string): (r: Option<real>)
      reads this
      requires Ranked()
      ensures r.None? <==> url !in verticesArray
      ensures forall i :: 0 <= i < |verticesArray| && verticesArray[i] == url ==> r == Some(rankVector[i])
      ensures r.Some? ==> Teleport(numOfVertices) <= r.value <= 1.0
    {
      IndexedDistinct(verticesArray, verticesIndex);
      RankedMass();
      if url in verticesIndex then
        EntriesWithinSum(rankVector);
        Some(rankVector[verticesIndex[url]])
      else
        None
    }

    /** `outDegreeOf`: the number of edges leaving `url`, 0 for an identifier without a list. */
    function OutDegreeOf(url: string): (r: nat)
      reads this
      requires Loaded()
      ensures r == |TargetsOf(edges, url)|
    {
      OutListsAreTargets(edges, url);
      if url !in graphOut then 0 else |graphOut[url]|
    }

    /** `inDegreeOf`: the number of edges entering `url`, 0 for an identifier without a list. */
    function InDegreeOf(url: string): (r: nat)
      reads this
      requires Loaded()
      ensures r == |SourcesOf(edges, url)|
    {
      InListsAreSources(edges, url);
      if url !in graphIn then 0 else |graphIn[url]|
    }

    /** `numEdges`: the number of edge lines read. */
    function NumEdges(): (r: int)
      reads this
      requires Loaded()
      ensures r == |edges|
    {
      numOfEdges
    }

    /** Over all vertices the out-degrees, and likewise the in-degrees, add up to the number of edges. */
    lemma DegreesAddUp()
      requires Complete()
      ensures DegreeSum(verticesArray, graphOut) == NumEdges()
      ensures DegreeSum(verticesArray, graphIn) == NumEdges()
    {
      IndexedDistinct(verticesArray, verticesIndex);
      DegreeSumsCountEdges(edges, verticesArray);
    }

    /**
     * `computeRank`: the power iteration run on the graph, then its step count and its last
     * vector stored.
     */
    method ComputeRank(maxSteps: nat) returns (converged: bool)
      requires Complete() && numberOfSteps == 0
      modifies this`rankVector, this`numberOfSteps
      ensures converged ==> Ranked() && numberOfSteps <= maxSteps
      ensures !converged ==> numberOfSteps == maxSteps && StillMoving(Graph(), maxSteps, epsilon)
    {
      ListsNameVertices(edges);
      IndexGraphWellFormed(verticesArray, verticesIndex, graphOut);
      var pN, steps;
      pN, steps, converged := PowerIteration(verticesArray, verticesIndex, graphOut, epsilon, maxSteps);
      numberOfSteps := steps;
      rankVector := pN[..];
    }

    /** What `topK` makes of a metric per vertex: the pages of the top `k` indices, or the exception it throws. */
    ghost function TopPages(data: seq<real>, k: int): Result<seq<string>, QueryError>
      reads this
      requires Complete() && |data| == numOfVertices
    {
      if k < 0 then Failure(NegativeArraySize)
      else if k > numOfVertices then Failure(IndexOutOfBounds)
      else
        TopIndicesSelect(data, k);
        Success(PagesAt(verticesArray, TopIndices(data, k)))
    }

    /**
     * `topK` picks `k` distinct vertices, best first: each ahead of those after it, and of
     * every vertex left out, by metric and then by the higher index.
     */
    lemma TopPagesSelect(data: seq<real>, k: int)
      requires Complete() && |data| == numOfVertices && 0 <= k <= numOfVertices
      ensures TopPages(data, k).Success?
      ensures
        var pages := TopPages(data, k).value;
        && |pages| == k && Distinct(pages)
        && (forall a :: 0 <= a < k ==> pages[a] in verticesIndex)
        && (forall a, b :: 0 <= a < b < k ==> Ahead(data, verticesIndex[pages[a]], verticesIndex[pages[b]]))
        && (forall a, u :: 0 <= a < k && u in verticesIndex && u !in pages ==> Ahead(data, verticesIndex[pages[a]], verticesIndex[u]))
    {
      var picked := TopIndices(data, k);
      TopIndicesSelect(data, k);
      TopSelectionOrder(data, picked);
      var pages := PagesAt(verticesArray, picked);
      assert TopPages(data, k).value == pages;
      forall a | 0 <= a < k
        ensures pages[a] in verticesIndex && verticesIndex[pages[a]] == picked[a]
      {
      }
      forall u | u in verticesIndex && u !in pages
        ensures verticesIndex[u] !in picked
      {
        forall b | 0 <= b < k
          ensures picked[b] != verticesIndex[u]
        {
          assert pages[b] != u;
        }
      }
    }

    /** `topK`: the pairs of every vertex and its metric, sorted, read from the end. */
    method TopK(data: seq<real>, k: int) returns (r: Result<seq<string>, QueryError>)
      requires Complete() && |data| == numOfVertices
      ensures r == TopPages(data, k)
    {
      if k < 0 {
        return Failure(NegativeArraySize);
      }
      var result := new string[k];
      var allPairs := PairsArray(data);
      SortInPlace(allPairs);
      SortPairsOf(data);
      var filled := ReadFromEnd(result, allPairs);
      if !filled {
        return Failure(IndexOutOfBounds);
      }
      return Success(result[..]);
    }

    /**
     * The last loop of `topK`: slot j of `result` gets the vertex of the j-th pair from the
     * end, which exists only while j is below the number of pairs.
     */
    method ReadFromEnd(result: array<string>, allPairs: array<Pair>) returns (filled: bool)
      requires forall q :: 0 <= q < allPairs.Length ==> 0 <= allPairs[q].index < |verticesArray|
      modifies result
      ensures filled <==> result.Length <= allPairs.Length
      ensures filled ==> result[..] == PagesAt(verticesArray, LastIndices(allPairs[..], result.Length))
    {
      var n := allPairs.Length;
      ghost var sorted := allPairs[..];
      for j := 0 to result.Length
        invariant j <= n
        invariant result[..j] == PagesAt(verticesArray, LastIndices(sorted, j))
      {
        if n - 1 - j < 0 {
          return false;
        }
        result[j] := verticesArray[allPairs[n - 1 - j].index];
        assert LastIndices(sorted, j + 1)[..j] == LastIndices(sorted, j);
      }
      return true;
    }

    /** `topKPageRank`: the `k` pages of highest rank. */
    method TopKPageRank(k: int) returns (r: Result<seq<string>, QueryError>)
      requires Ranked()
      ensures r == TopPages(rankVector, k)
    {
      r := TopK(rankVector, k);
    }

    /** `topKInDegree`: the `k` pages with the most in-edges. */
    method TopKInDegree(k: int) returns (r: Result<seq<string>, QueryError>)
      requires Complete()
      ensures r == TopPages(InDegrees(edges, verticesArray), k)
    {
      ghost var degrees := InDegrees(edges, verticesArray);
      var inDegrees := new real[numOfVertices];
      for i := 0 to numOfVertices
        invariant forall j :: 0 <= j < i ==> inDegrees[j] == degrees[j]
      {
        inDegrees[i] := InDegreeOf(verticesArray[i]) as real;
      }
      assert inDegrees[..] == degrees;
      r := TopK(inDegrees[..], k);
    }

    /** `topKOutDegree`: the `k` pages with the most out-edges. */
    method TopKOutDegree(k: int) returns (r: Result<seq<string>, QueryError>)
      requires Complete()
      ensures r == TopPages(OutDegrees(edges, verticesArray), k)
    {
      ghost var degrees := OutDegrees(edges, verticesArray);
      var outDegrees := new real[numOfVertices];
      for i := 0 to numOfVertices
        invariant forall j :: 0 <= j < i ==> outDegrees[j] == degrees[j]
      {
        outDegrees[i] := OutDegreeOf(verticesArray[i]) as real;
      }
      assert outDegrees[..] == degrees;
      r := TopK(outDegrees[..], k);
    }
  }

  /**
   * The loop of `computeRank`, over the fields it reads: steps from the uniform vector until
   * a step moves the vector by at most `epsilon`, counting the steps; gives up after
   * `maxSteps` steps.
   */
  method PowerIteration(verticesArray: seq<string>, verticesIndex: map<string, int>, graphOut: Lists, epsilon: real, maxSteps: nat)
    returns (pN: array<real>, steps: nat, converged: bool)
    requires Indexed(verticesArray, verticesIndex) && ListsWithin(graphOut, verticesIndex.Keys)
    requires WellFormed(IndexGraph(verticesArray, verticesIndex, graphOut))
    ensures steps <= maxSteps
    ensures converged ==> Converged(IndexGraph(verticesArray, verticesIndex, graphOut), pN[..], steps, epsilon)
    ensures !converged ==> steps == maxSteps && StillMoving(IndexGraph(verticesArray, verticesIndex, graphOut), maxSteps, epsilon)
  {
    var n := |verticesArray|;
    ghost var graph := IndexGraph(verticesArray, verticesIndex, graphOut);
    // Java divides by zero here when there is no vertex, and then never uses the quotient.
    var defaultValue := if n > 0 then 1.0 / n as real else 0.0;
    pN := Filled(n, defaultValue);
    assert pN[..] == Start(n);
    converged := false;
    steps := 0;
    while !converged && steps < maxSteps
      invariant pN.Length == n && pN[..] == Iterate(graph, steps)
      invariant steps <= maxSteps
      invariant converged ==> Converged(graph, pN[..], steps, epsilon)
      invariant !converged ==> StillMoving(graph, steps, epsilon)
      decreases maxSteps - steps
    {
      var pNPlusOne := SimulateOneStep(pN, verticesArray, verticesIndex, graphOut);
      var norm := ComputeNormDifference(pNPlusOne, pN);
      IterateNext(graph, steps, pN[..], pNPlusOne[..]);
      assert pNPlusOne[..pN.Length] == pNPlusOne[..];
      if norm <= epsilon {
        converged := true;
      } else {
        StillMovingNext(graph, steps, epsilon);
      }
      pN := pNPlusOne;
      steps := steps + 1;
    }
  }

  /** `simulateOneStep`, over the fields it reads: the next rank vector of the walk, in a new array. */
  method SimulateOneStep(pN: array<real>, verticesArray: seq<string>, verticesIndex: map<string, int>, graphOut: Lists)
    returns (next: array<real>)
    requires Indexed(verticesArray, verticesIndex) && ListsWithin(graphOut, verticesIndex.Keys)
    requires WellFormed(IndexGraph(verticesArray, verticesIndex, graphOut)) && pN.Length == |verticesArray|
    ensures fresh(next) && next[..] == Step(pN[..], IndexGraph(verticesArray, verticesIndex, graphOut))
  {
    var n := |verticesArray|;
    // Java divides by zero here when there is no vertex, and then never uses the quotient.
    var defaultValue := if n > 0 then (1.0 - BETA) / n as real else 0.0;
    next := Filled(n, defaultValue);
    WalkVertices(next, pN, verticesArray, verticesIndex, graphOut);
  }

  /**
   * The vertex loop of `simulateOneStep`, over the fields it reads: the share of every
   * vertex, in array order, added to `next`.
   */
  method WalkVertices(next: array<real>, pN: array<real>, verticesArray: seq<string>, verticesIndex: map<string, int>, graphOut: Lists)
    requires Indexed(verticesArray, verticesIndex) && ListsWithin(graphOut, verticesIndex.Keys)
    requires WellFormed(IndexGraph(verticesArray, verticesIndex, graphOut))
    requires next.Length == pN.Length == |verticesArray| && next != pN
    requires |verticesArray| > 0 ==> next[..] == Uniform(|verticesArray|, Teleport(|verticesArray|))
    modifies next
    ensures next[..] == Step(pN[..], IndexGraph(verticesArray, verticesIndex, graphOut))
  {
    var n := |verticesArray|;
    ghost var graph := IndexGraph(verticesArray, verticesIndex, graphOut);
    ghost var p := pN[..];
    for k := 0 to n
      invariant pN[..] == p
      invariant n > 0 ==> next[..] == StepFrom(Uniform(n, Teleport(n)), p, graph, k)
    {
      ShareOf(next, pN, k, verticesArray, verticesIndex, graphOut);
    }
  }

  /** One pass of the vertex loop: what the k-th vertex passes on, added to `next`. */
  method ShareOf(next: array<real>, pN: array<real>, k: nat, verticesArray: seq<string>, verticesIndex: map<string, int>, graphOut: Lists)
    requires Indexed(verticesArray, verticesIndex) && ListsWithin(graphOut, verticesIndex.Keys)
    requires next.Length == pN.Length == |verticesArray| && k < |verticesArray| && next != pN
    modifies next
    ensures next[..] == Share(old(next[..]), pN[k], Successors(graphOut, verticesIndex, verticesArray[k]))
  {
    var n := |verticesArray|;
    var keyC := verticesArray[k];
    var index := verticesIndex[keyC];
    assert index == k;
    ghost var targets := Successors(graphOut, verticesIndex, keyC);
    ghost var start := next[..];
    var numOfEdges := 0;
    if keyC in graphOut {
      numOfEdges := |graphOut[keyC]|;
    }
    if numOfEdges == 0 {
      var value := BETA * pN[index] / n as real;
      AddToAllInPlace(next, value);
      assert Share(start, pN[k], targets) == AddToAll(start, value);
    } else {
      var value := BETA * pN[index] / numOfEdges as real;
      SpreadAlong(next, graphOut[keyC], value, verticesIndex);
      assert targets == Lookup(verticesIndex, graphOut[keyC]);
    }
  }

  /** The inner loop over `graphOut.get(keyC)`: `value` added at the index of every target, in order. */
  method SpreadAlong(next: array<real>, keys: seq<string>, value: real, verticesIndex: map<string, int>)
    requires forall j :: 0 <= j < |keys| ==> keys[j] in verticesIndex && 0 <= verticesIndex[keys[j]] < next.Length
    modifies next
    ensures next[..] == SpreadTo(old(next[..]), Lookup(verticesIndex, keys), value)
  {
    ghost var start := next[..];
    for j := 0 to |keys|
      invariant next[..] == SpreadTo(start, Lookup(verticesIndex, keys[..j]), value)
    {
      var linkedIndex := verticesIndex[keys[j]];
      assert Lookup(verticesIndex, keys[..j + 1])[..j] == Lookup(verticesIndex, keys[..j]);
      next[linkedIndex] := next[linkedIndex] + value;
    }
    assert keys[..|keys|] == keys;
  }

  /** A new array of `n` entries, each set to `x` by a loop. */
  method Filled(n: nat, x: real) returns (a: array<real>)
    ensures fresh(a) && a[..] == Uniform(n, x)
  {
    a := new real[n];
    for i := 0 to n
      invariant forall j :: 0 <= j < i ==> a[j] == x
    {
      a[i] := x;
    }
  }

  /** The dangling-page loop of `simulateOneStep`: `x` added to every entry. */
  method AddToAllInPlace(a: array<real>, x: real)
    modifies a
    ensures a[..] == AddToAll(old(a[..]), x)
  {
    ghost var start := a[..];
    for i := 0 to a.Length
      invariant forall j :: 0 <= j < i ==> a[j] == start[j] + x
      invariant forall j :: i <= j < a.Length ==> a[j] == start[j]
    {
      a[i] := a[i] + x;
    }
  }

  /** `computeNormDifference`: the L1 distance over the first `pN.Length` entries. */
  method ComputeNormDifference(pNPlusOne: array<real>, pN: array<real>) returns (norm: real)
    requires pNPlusOne.Length >= pN.Length
    ensures norm == L1(pNPlusOne[..pN.Length], pN[..])
  {
    norm := 0.0;
    for i := 0 to pN.Length
      invariant norm == L1(pNPlusOne[..i], pN[..i])
    {
      assert pNPlusOne[..i + 1][..i] == pNPlusOne[..i] && pN[..i + 1][..i] == pN[..i];
      norm := norm + Abs(pNPlusOne[i] - pN[i]);
    }
    assert pN[..pN.Length] == pN[..];
  }

  /** The first loop of `topK`: pair i holds index i and the i-th metric. */
  method PairsArray(data: seq<real>) returns (allPairs: array<Pair>)
    ensures fresh(allPairs) && allPairs[..] == Pairs(data)
  {
    allPairs := new Pair[|data|];
    for i := 0 to |data|
      invariant forall j :: 0 <= j < i ==> allPairs[j] == Pair(j, data[j])
    {
      allPairs[i] := Pair(i, data[i]);
    }
  }

  /** `Arrays.sort` on the pairs: the stable sort by value. */
  method SortInPlace(a: array<Pair>)
    modifies a
    ensures a[..] == SortPairs(old(a[..]))
  {
    var sorted := SortPairs(a[..]);
    forall i | 0 <= i < a.Length {
      a[i] := sorted[i];
    }
  }

  /**
   * `computeJac`: the pages of both lists numbered in order of first appearance, a 0/1
   * signature per list over those numbers, and the count of numbers set in both over the
   * count of all.
   */
  method ComputeJac(pages1: seq<string>, pages2: seq<string>) returns (r: Result<real, QueryError>)
    ensures |pages1| == 0 || |pages2| == 0 ==> r == Failure(EmptyPages)
    ensures |pages1| > 0 && |pages2| > 0 ==> r == Success(Jaccard(Elements(pages1), Elements(pages2)))
  {
    if |pages1| == 0 || |pages2| == 0 {
      return Failure(EmptyPages);
    }
    var terms;
    ghost var names;
    terms, names := NumberAll(pages1, pages2);
    IndexedDistinct(names, terms);
    var numOfTerms := |terms|;
    var sig1 := Signature(pages1, terms, names);
    var sig2 := Signature(pages2, terms, names);
    var intersection := CountCommon(sig1, sig2, names, Elements(pages1), Elements(pages2));
    CountsOfNumbering(names, Elements(pages1), Elements(pages2));
    return Success(intersection as real / numOfTerms as real);
  }

  /** The two numbering loops of `computeJac`: every page of either list gets a number of its own, from 0 up. */
  method NumberAll(pages1: seq<string>, pages2: seq<string>) returns (terms: map<string, int>, ghost names: seq<string>)
    ensures Indexed(names, terms)
    ensures Elements(names) == Elements(pages1) + Elements(pages2)
  {
    var index;
    terms, names, index := NumberPages(pages1, map[], [], 0);
    terms, names, index := NumberPages(pages2, terms, names, index);
  }

  /** One numbering loop of `computeJac`: every page not yet numbered gets the next number. */
  method NumberPages(pages: seq<string>, terms0: map<string, int>, ghost names0: seq<string>, index0: int)
    returns (terms: map<string, int>, ghost names: seq<string>, index: int)
    requires Indexed(names0, terms0) && index0 == |names0|
    ensures Indexed(names, terms) && index == |names|
    ensures Elements(names) == Elements(names0) + Elements(pages)
  {
    terms, names, index := terms0, names0, index0;
    for i := 0 to |pages|
      invariant Indexed(names, terms) && index == |names|
      invariant Elements(names) == Elements(names0) + Elements(pages[..i])
    {
      ElementsPrefixStep(pages, i);
      NumberStep(names, terms, pages[i], Elements(names0) + Elements(pages[..i]));
      if pages[i] !in terms {
        terms := terms[pages[i] := index];
        names := names + [pages[i]];
        index := index + 1;
      }
    }
    assert pages[..|pages|] == pages;
  }

  /** Over a numbering of exactly the pages of both lists, the counts are those of the two sets. */
  lemma CountsOfNumbering(names: seq<string>, a: set<string>, b: set<string>)
    requires Distinct(names) && Elements(names) == a + b
    ensures |Elements(names) * (a * b)| == |a * b|
    ensures |names| == |a + b|
  {
    assert Elements(names) * (a * b) == a * b;
    DistinctCardinality(names);
  }

  /** Numbering one more page keeps the numbering exact and adds the page to the numbered set. */
  lemma NumberStep(names: seq<string>, terms: map<string, int>, x: string, numbered: set<string>)
    requires Indexed(names, terms) && Elements(names) == numbered
    ensures x in terms ==> Elements(names) == numbered + {x}
    ensures x !in terms ==> Indexed(names + [x], terms[x := |names|]) && Elements(names + [x]) == numbered + {x}
  {
    IndexedDistinct(names, terms);
    if x !in terms {
      IndexedSnoc(names, terms, x);
      ElementsSnoc(names, x);
    }
  }

  /** The counting loop of `computeJac`: the numbered pages marked in both signatures. */
  method CountCommon(sig1: array<int>, sig2: array<int>, ghost names: seq<string>, ghost a: set<string>, ghost b: set<string>)
    returns (intersection: int)
    requires sig1.Length == |names| && sig2.Length == |names| && Distinct(names)
    requires forall t :: 0 <= t < sig1.Length ==> sig1[t] == if names[t] in a then 1 else 0
    requires forall t :: 0 <= t < sig2.Length ==> sig2[t] == if names[t] in b then 1 else 0
    ensures intersection == |Elements(names) * (a * b)|
  {
    ghost var common := a * b;
    intersection := 0;
    for t := 0 to sig1.Length
      invariant intersection == |Elements(names[..t]) * common|
    {
      CommonStep(names, t, common);
      if sig1[t] == 1 && sig2[t] == 1 {
        intersection := intersection + 1;
      }
    }
    assert names[..sig1.Length] == names;
  }

  /** One more numbered page adds one to the count of common pages exactly when it is common. */
  lemma CommonStep(names: seq<string>, t: int, common: set<string>)
    requires Distinct(names) && 0 <= t < |names|
    ensures |Elements(names[..t + 1]) * common| == |Elements(names[..t]) * common| + if names[t] in common then 1 else 0
  {
    ElementsPrefixStep(names, t);
    assert names[t] !in Elements(names[..t]);
    if names[t] in common {
      assert Elements(names[..t + 1]) * common == Elements(names[..t]) * common + {names[t]};
    } else {
      assert Elements(names[..t + 1]) * common == Elements(names[..t]) * common;
    }
  }

  /** One signature of `computeJac`: a new array holding 1 at the number of every page listed, 0 elsewhere. */
  method Signature(pages: seq<string>, terms: map<string, int>, ghost names: seq<string>) returns (sig: array<int>)
    requires Indexed(names, terms) && Elements(pages) <= Elements(names)
    ensures fresh(sig) && sig.Length == |names|
    ensures forall t :: 0 <= t < sig.Length ==> sig[t] == if names[t] in Elements(pages) then 1 else 0
  {
    IndexedDistinct(names, terms);
    sig := new int[|terms|](_ => 0);
    for i := 0 to |pages|
      invariant forall t :: 0 <= t < sig.Length ==> sig[t] == if names[t] in Elements(pages[..i]) then 1 else 0
    {
      ElementsPrefixStep(pages, i);
      assert pages[i] in Elements(pages);
      sig[terms[pages[i]]] := 1;
    }
    assert pages[..|pages|] == pages;
  }
}
