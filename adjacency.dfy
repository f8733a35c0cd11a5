/**
 * The adjacency maps the ranker builds from an edge list: `graphOut[u]` collects the
 * targets of u's edges and `graphIn[v]` the sources of v's edges, each in file order, a
 * key existing only once it has an edge. Beside them the reference definitions they are
 * proved against (the edges filtered by source or by target) and the round trip with the
 * crawler's writer.
 */
module Adjacency {
  import opened Seqs
  import opened JavaText
  import opened Wrappers
  import opened GraphFile
  import WebPages

  type Lists = map<string, seq<string>>

  /** `get(k).add(v)` when `k` is a key, else `put(k, [v])`. */
  function Append(m: Lists, k: string, v: string): (r: Lists)
    ensures r.Keys == m.Keys + {k}
  {
    if k in m then m[k := m[k] + [v]] else m[k := [v]]
  }

  /** `graphOut` after the edges were read in order. */
  function OutLists(edges: seq<Edge>): Lists
  {
    if edges == [] then map[]
    else
      var e := edges[|edges| - 1];
      Append(OutLists(edges[..|edges| - 1]), e.0, e.1)
  }

  /** `graphIn` after the edges were read in order. */
  function InLists(edges: seq<Edge>): Lists
  {
    if edges == [] then map[]
    else
      var e := edges[|edges| - 1];
      Append(InLists(edges[..|edges| - 1]), e.1, e.0)
  }

  /** Reading one more edge extends the maps and the vertex set by that edge. */
  lemma ReadOneMore(edges: seq<Edge>, e: Edge)
    ensures OutLists(edges + [e]) == Append(OutLists(edges), e.0, e.1)
    ensures InLists(edges + [e]) == Append(InLists(edges), e.1, e.0)
    ensures Endpoints(edges + [e]) == Endpoints(edges) + {e.0, e.1}
  {
    assert (edges + [e])[..|edges|] == edges;
  }

  /** Every identifier named by some edge: the `vertices` set. */
  function Endpoints(edges: seq<Edge>): set<string>
  {
    if edges == [] then {}
    else
      var e := edges[|edges| - 1];
      Endpoints(edges[..|edges| - 1]) + {e.0, e.1}
  }

  /** The targets of the edges leaving `u`, in edge order. */
  function TargetsOf(edges: seq<Edge>, u: string): seq<string>
  {
    if edges == [] then []
    else
      var e := edges[|edges| - 1];
      TargetsOf(edges[..|edges| - 1], u) + (if e.0 == u then [e.1] else [])
  }

  /** The sources of the edges entering `v`, in edge order. */
  function SourcesOf(edges: seq<Edge>, v: string): seq<string>
  {
    if edges == [] then []
    else
      var e := edges[|edges| - 1];
      SourcesOf(edges[..|edges| - 1], v) + (if e.1 == v then [e.0] else [])
  }

  /** Every identifier in any list of `m` belongs to `vs`. */
  ghost predicate ListsWithin(m: Lists, vs: set<string>)
  {
    forall u :: u in m ==> forall j :: 0 <= j < |m[u]| ==> m[u][j] in vs
  }

  /** `graphOut[u]` exists exactly when u has an out-edge, and then lists u's targets in file order. */
  lemma {:induction false} OutListsAreTargets(edges: seq<Edge>, u: string)
    ensures u in OutLists(edges) <==> TargetsOf(edges, u) != []
    ensures u in OutLists(edges) ==> OutLists(edges)[u] == TargetsOf(edges, u)
  {
    if edges != [] {
      OutListsAreTargets(edges[..|edges| - 1], u);
    }
  }

  /** `graphIn[v]` exists exactly when v has an in-edge, and then lists v's sources in file order. */
  lemma {:induction false} InListsAreSources(edges: seq<Edge>, v: string)
    ensures v in InLists(edges) <==> SourcesOf(edges, v) != []
    ensures v in InLists(edges) ==> InLists(edges)[v] == SourcesOf(edges, v)
  {
    if edges != [] {
      InListsAreSources(edges[..|edges| - 1], v);
    }
  }

  /** The vertices are exactly the keys of the two maps together. */
  lemma {:induction false} EndpointsAreKeys(edges: seq<Edge>)
    ensures Endpoints(edges) == OutLists(edges).Keys + InLists(edges).Keys
  {
    if edges != [] {
      EndpointsAreKeys(edges[..|edges| - 1]);
    }
  }

  /** Every list only names vertices. */
  lemma {:induction false} ListsNameVertices(edges: seq<Edge>)
    ensures ListsWithin(OutLists(edges), Endpoints(edges))
    ensures ListsWithin(InLists(edges), Endpoints(edges))
  {
    if edges != [] {
      var init := edges[..|edges| - 1];
      ListsNameVertices(init);
      var e := edges[|edges| - 1];
      assert Endpoints(edges) == Endpoints(init) + {e.0, e.1};
    }
  }

  /** The total length of the lists of the vertices `vs`, an absent key counting 0. */
  function DegreeSum(vs: seq<string>, m: Lists): nat
  {
    if vs == [] then 0
    else
      var v := vs[|vs| - 1];
      DegreeSum(vs[..|vs| - 1], m) + (if v in m then |m[v]| else 0)
  }

  lemma {:induction false} DegreeSumEmpty(vs: seq<string>)
    ensures DegreeSum(vs, map[]) == 0
  {
    if vs != [] {
      DegreeSumEmpty(vs[..|vs| - 1]);
    }
  }

  /** One more list entry under `k` adds one to the sum over duplicate-free vertices that include `k`. */
  lemma {:induction false} DegreeSumAppend(vs: seq<string>, m: Lists, k: string, v: string)
    requires Distinct(vs)
    ensures DegreeSum(vs, Append(m, k, v)) == DegreeSum(vs, m) + (if k in vs then 1 else 0)
  {
    if vs != [] {
      var init := vs[..|vs| - 1];
      assert Distinct(init);
      DegreeSumAppend(init, m, k, v);
      if vs[|vs| - 1] == k {
        assert k !in init;
      }
    }
  }

  /**
   * Summed over all vertices, each once, the out-list lengths and the in-list lengths
   * both count every edge exactly once.
   */
  lemma {:induction false} DegreeSumsCountEdges(edges: seq<Edge>, vs: seq<string>)
    requires Distinct(vs) && Endpoints(edges) <= Elements(vs)
    ensures DegreeSum(vs, OutLists(edges)) == |edges|
    ensures DegreeSum(vs, InLists(edges)) == |edges|
  {
    if edges == [] {
      DegreeSumEmpty(vs);
    } else {
      var init := edges[..|edges| - 1];
      var e := edges[|edges| - 1];
      DegreeSumsCountEdges(init, vs);
      assert e.0 in Elements(vs) && e.1 in Elements(vs);
      DegreeSumAppend(vs, OutLists(init), e.0, e.1);
      DegreeSumAppend(vs, InLists(init), e.1, e.0);
    }
  }

  lemma {:induction false} TargetsOfConcat(a: seq<Edge>, b: seq<Edge>, u: string)
    ensures TargetsOf(a + b, u) == TargetsOf(a, u) + TargetsOf(b, u)
  {
    if b != [] {
      var init := b[..|b| - 1];
      var e := b[|b| - 1];
      var piece := if e.0 == u then [e.1] else [];
      assert (a + b)[..|a + b| - 1] == a + init;
      assert (a + b)[|a + b| - 1] == e;
      TargetsOfConcat(a, init, u);
      AppendAssoc(TargetsOf(a, u), TargetsOf(init, u), piece);
    } else {
      assert a + b == a;
    }
  }

  lemma {:induction false} TargetsOfEdgesFrom(w: string, targets: seq<string>, u: string)
    ensures TargetsOf(EdgesFrom(w, targets), u) == if u == w then targets else []
  {
    if targets != [] {
      var init := targets[..|targets| - 1];
      assert EdgesFrom(w, targets)[..|targets| - 1] == EdgesFrom(w, init);
      TargetsOfEdgesFrom(w, init, u);
    }
  }

  /** Written source by source, each source once, the edges leaving `u` are exactly u's list. */
  lemma {:induction false} TargetsOfEdgesInOrder(order: seq<string>, graph: Lists, u: string)
    requires Distinct(order) && forall w :: w in order ==> w in graph
    ensures TargetsOf(EdgesInOrder(order, graph), u) == if u in order then graph[u] else []
  {
    if order != [] {
      var init := order[..|order| - 1];
      var w := order[|order| - 1];
      assert Distinct(init);
      TargetsOfEdgesInOrder(init, graph, u);
      TargetsOfConcat(EdgesInOrder(init, graph), EdgesFrom(w, graph[w]), u);
      TargetsOfEdgesFrom(w, graph[w], u);
      if u == w {
        assert u !in init;
      }
    }
  }

  /** Every edge written for an adjacency map is an edge of the map. */
  lemma {:induction false} EdgesInOrderMember(order: seq<string>, graph: Lists, e: Edge)
    requires forall w :: w in order ==> w in graph
    requires e in EdgesInOrder(order, graph)
    ensures e.0 in order && e.1 in graph[e.0]
  {
    var init := order[..|order| - 1];
    var w := order[|order| - 1];
    if e in EdgesInOrder(init, graph) {
      EdgesInOrderMember(init, graph, e);
    } else {
      var j :| 0 <= j < |graph[w]| && EdgesFrom(w, graph[w])[j] == e;
    }
  }

  /** Identifiers the edge-list format carries intact: no space, and no empty target. */
  ghost predicate Writable(order: seq<string>, graph: Lists)
    requires forall w :: w in order ==> w in graph
  {
    forall w :: w in order ==> ' ' !in w && forall j :: 0 <= j < |graph[w]| ==> ' ' !in graph[w][j] && |graph[w][j]| > 0
  }

  /** Identifiers that stay on their own line when the file is read back: no line break. */
  ghost predicate LineSafe(order: seq<string>, graph: Lists)
    requires forall w :: w in order ==> w in graph
  {
    forall w :: w in order ==> NoLineBreak(w) && forall j :: 0 <= j < |graph[w]| ==> NoLineBreak(graph[w][j])
  }

  /**
   * Reading back what the crawler writes: the file's lines parse to the cap it wrote and
   * the edges in writing order, and so does the text a `Scanner` reads line by line when
   * no identifier holds a line break; `graphOut` then holds exactly the sources with a
   * non-empty list, each with its list as crawled.
   */
  lemma ReadBackCrawl(declared: nat, order: seq<string>, graph: Lists)
    requires declared <= INT_MAX && Distinct(order)
    requires forall w :: w in order ==> w in graph
    requires Writable(order, graph)
    ensures ParseFile(FileLines(declared, EdgesInOrder(order, graph)))
         == Success(Parsed(declared, EdgesInOrder(order, graph)))
    ensures LineSafe(order, graph) ==>
              (ParseFile(ScannerLines(WrittenText(FileLines(declared, EdgesInOrder(order, graph)))))
               == Success(Parsed(declared, EdgesInOrder(order, graph))))
    ensures forall u :: u in OutLists(EdgesInOrder(order, graph)) <==> (u in order && graph[u] != [])
    ensures forall u :: u in order && graph[u] != [] ==> OutLists(EdgesInOrder(order, graph))[u] == graph[u]
  {
    var edges := EdgesInOrder(order, graph);
    forall e | e in edges
      ensures ' ' !in e.0 && ' ' !in e.1 && |e.1| > 0
    {
      EdgesInOrderMember(order, graph, e);
      var j :| 0 <= j < |graph[e.0]| && graph[e.0][j] == e.1;
    }
    ParseFileLines(declared, edges);
    if LineSafe(order, graph) {
      forall e | e in edges
        ensures NoLineBreak(e.0) && NoLineBreak(e.1)
      {
        EdgesInOrderMember(order, graph, e);
        var j :| 0 <= j < |graph[e.0]| && graph[e.0][j] == e.1;
      }
      ParseFileText(declared, edges);
    }
    forall u
      ensures u in OutLists(edges) <==> u in order && graph[u] != []
      ensures u in order && graph[u] != [] ==> OutLists(edges)[u] == graph[u]
    {
      OutListsAreTargets(edges, u);
      TargetsOfEdgesInOrder(order, graph, u);
    }
  }

  /** The edges written for a single page with a single target. */
  lemma EdgesInOrderSingle(u: string, v: string)
    ensures EdgesInOrder([u], map[u := [v]]) == [(u, v)]
  {
    var graph := map[u := [v]];
    assert [u][..0] == [];
    assert EdgesInOrder([u], graph) == EdgesInOrder([], graph) + EdgesFrom(u, graph[u]);
    assert EdgesFrom(u, graph[u]) == [(u, v)];
  }

  /** One page with one space-free, non-empty target is `Writable`. */
  lemma SinglePageWritable(u: string, v: string)
    requires ' ' !in u && ' ' !in v && |v| > 0
    ensures Writable([u], map[u := [v]])
  {
  }

  /** One page whose target holds a line break is not `LineSafe`. */
  lemma SinglePageNotLineSafe(u: string, v: string, k: nat)
    requires k < |v| && IsLineBreak(v[k])
    ensures !LineSafe([u], map[u := [v]])
  {
    assert map[u := [v]][u][0] == v;
  }

  /**
   * `Writable` is needed: when a crawled target holds a space, the crawler's file reads
   * back with that target cut at its first space, and the edge read names a vertex that
   * was never crawled.
   */
  lemma SpacedTargetReadBackCut(declared: nat, u: string, a: string, b: string)
    requires declared <= INT_MAX
    requires ' ' !in u && ' ' !in a && |a| > 0
    ensures !Writable([u], map[u := [a + " " + b]])
    ensures ParseFile(FileLines(declared, EdgesInOrder([u], map[u := [a + " " + b]])))
         == Success(Parsed(declared, [(u, a)]))
  {
    var name := a + " " + b;
    assert name[|a|] == ' ';
    var graph := map[u := [name]];
    assert graph[u][0] == name;
    var edges := EdgesInOrder([u], graph);
    EdgesInOrderSingle(u, name);
    ParseIntOfToString(declared);
    ParseEdgeLineOfSpacedTarget(u, a, b);
    var lines := FileLines(declared, edges);
    assert lines[1..] == [EdgeLine((u, name))];
    assert FirstMalformed(lines[1..], 0) == 1;
    assert ParseEdges(lines[1..]) == [(u, a)];
  }

  /**
   * `LineSafe` is needed: a crawled target `a\u2028b` passes `Writable`, but a `Scanner`
   * ends a line at the separator, so the file reads back as the lines `u a` and `b`, and
   * loading fails at the second edge line.
   */
  lemma SeparatorTargetReadBackFails(declared: nat, u: string, a: string, b: string)
    requires declared <= INT_MAX
    requires ' ' !in u && ' ' !in a && ' ' !in b && |a| > 0
    requires NoLineBreak(u) && NoLineBreak(a) && NoLineBreak(b)
    ensures Writable([u], map[u := [a + "\U{2028}" + b]])
    ensures !LineSafe([u], map[u := [a + "\U{2028}" + b]])
    ensures ParseFile(ScannerLines(WrittenText(FileLines(declared, EdgesInOrder([u], map[u := [a + "\U{2028}" + b]])))))
         == Failure(MalformedEdge(2))
  {
    var name := a + "\U{2028}" + b;
    assert ' ' !in name;
    assert IsLineBreak(name[|a|]);
    SinglePageWritable(u, name);
    SinglePageNotLineSafe(u, name, |a|);
    EdgesInOrderSingle(u, name);
    SeparatorEdgeFails(declared, u, a, b);
  }
}
