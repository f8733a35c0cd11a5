/**
 * The admission rule the crawler applies to each link it extracts, as a function of the
 * frontier before the link, and the invariants that rule keeps: the visited set never
 * exceeds the cap, the visited list is the visited set in insertion order, the waiting
 * queue is a suffix of the visited list, and a page's edge list has no duplicate and no
 * self-loop.
 */
module Frontier {
  import opened JavaText
  import opened Seqs
  import opened WebPages

  /** `visitedSet`, `visitedList` and `waitingQ` of the crawler. */
  datatype State = State(visitedSet: set<string>, visitedList: seq<string>, waitingQ: seq<string>)

  /** What an admission depends on and a crawl never changes. */
  datatype Config = Config(max: int, disallowed: set<string>, keywords: set<string>, web: Web)

  /** The frontier invariant. */
  ghost predicate Inv(max: int, st: State)
  {
    && |st.visitedSet| <= max
    && st.visitedSet == Elements(st.visitedList)
    && Distinct(st.visitedList)
    && |st.waitingQ| <= |st.visitedList|
    && st.waitingQ == st.visitedList[|st.visitedList| - |st.waitingQ|..]
    && forall v :: v in st.visitedSet ==> StartsWith(v, WIKI_PREFIX)
  }

  /** A valid `/wiki/` page whose raw text mentions every keyword. */
  predicate OnTopic(c: Config, link: string)
  {
    && StartsWith(link, WIKI_PREFIX)
    && IsValidPage(link, c.disallowed)
    && AboutTopics(c.keywords, c.web, link)
  }

  /** A link not yet visited becomes a vertex only while the cap has room, if it is a valid `/wiki/` page about the topics. */
  predicate Admissible(c: Config, st: State, link: string)
  {
    |st.visitedSet| < c.max && OnTopic(c, link)
  }

  /**
   * A link turned away for good: it is not visited, and either the cap is reached or the
   * page fails the tests, so no later expansion can admit it.
   */
  ghost predicate Dropped(c: Config, visited: set<string>, v: string)
  {
    v !in visited && (|visited| >= c.max || !OnTopic(c, v))
  }

  /**
   * One extracted link of page `url`, given the frontier and the page's edges so far. A
   * repeated link and a self-link are ignored; a visited link becomes an edge; a new link
   * becomes an edge, a visited vertex and the tail of the queue together if admissible.
   */
  function Consider(c: Config, url: string, st: State, edges: seq<string>, link: string): (State, seq<string>)
  {
    if link in edges || link == url then (st, edges)
    else if link in st.visitedSet then (st, edges + [link])
    else if Admissible(c, st, link) then
      (State(st.visitedSet + {link}, st.visitedList + [link], st.waitingQ + [link]), edges + [link])
    else (st, edges)
  }

  /** The frontier and the edge list of page `url` after its links, in order, starting from no edges. */
  function Scan(c: Config, url: string, st: State, links: seq<string>): (State, seq<string>)
  {
    if links == [] then (st, [])
    else
      var (st', edges) := Scan(c, url, st, links[..|links| - 1]);
      Consider(c, url, st', edges, links[|links| - 1])
  }

  /** Scanning one more link is considering it after the links before it. */
  lemma ScanSnoc(c: Config, url: string, st: State, links: seq<string>, link: string)
    ensures Scan(c, url, st, links + [link])
         == Consider(c, url, Scan(c, url, st, links).0, Scan(c, url, st, links).1, link)
  {
    assert (links + [link])[..|links|] == links;
  }

  lemma ScanStep(c: Config, url: string, st: State, done: seq<string>, more: seq<string>, link: string)
    ensures Scan(c, url, st, done + (more + [link]))
         == Consider(c, url, Scan(c, url, st, done + more).0, Scan(c, url, st, done + more).1, link)
  {
    assert done + (more + [link]) == (done + more) + [link];
    ScanSnoc(c, url, st, done + more, link);
  }

  /** The vertices that expanding a page appended, behind the ones visited before. */
  ghost predicate Appended(c: Config, before: State, after: State, edges: seq<string>)
  {
    && |before.visitedList| <= |after.visitedList|
    && after.visitedList[..|before.visitedList|] == before.visitedList
    && after.waitingQ == before.waitingQ + after.visitedList[|before.visitedList|..]
    && after.visitedSet == before.visitedSet + Elements(after.visitedList[|before.visitedList|..])
    && forall j :: |before.visitedList| <= j < |after.visitedList| ==>
         var v := after.visitedList[j];
         && v !in before.visitedSet
         && v in edges
         && StartsWith(v, WIKI_PREFIX)
         && IsValidPage(v, c.disallowed)
         && AboutTopics(c.keywords, c.web, v)
  }

  /** Expanding nothing appends nothing. */
  lemma AppendedNothing(c: Config, st: State, edges: seq<string>)
    ensures Appended(c, st, st, edges)
  {
    assert st.visitedList[|st.visitedList|..] == [];
  }

  /** What appending tells about lengths and positions. */
  lemma AppendedPositions(c: Config, before: State, after: State, edges: seq<string>)
    requires Appended(c, before, after, edges)
    ensures |after.waitingQ| == |before.waitingQ| + (|after.visitedList| - |before.visitedList|)
    ensures forall j :: 0 <= j < |before.visitedList| ==> after.visitedList[j] == before.visitedList[j]
  {
    assert |after.visitedList[|before.visitedList|..]| == |after.visitedList| - |before.visitedList|;
  }

  /** A page's edge list is duplicate-free, has no self-loop and only leads to visited vertices. */
  ghost predicate GoodEdges(url: string, visited: set<string>, edges: seq<string>)
  {
    Distinct(edges) && url !in edges && forall v :: v in edges ==> v in visited
  }

  lemma ConsiderKeepsInv(c: Config, url: string, st: State, edges: seq<string>, link: string)
    requires Inv(c.max, st)
    ensures Inv(c.max, Consider(c, url, st, edges, link).0)
  {
    var st' := Consider(c, url, st, edges, link).0;
    if st' != st {
      assert st'.visitedList[|st'.visitedList| - |st'.waitingQ|..]
          == st.visitedList[|st.visitedList| - |st.waitingQ|..] + [link];
    }
  }

  /** Scanning a page's links keeps the frontier invariant, in particular the cap. */
  lemma {:induction false} ScanKeepsInv(c: Config, url: string, st: State, links: seq<string>)
    requires Inv(c.max, st)
    ensures Inv(c.max, Scan(c, url, st, links).0)
  {
    if links != [] {
      ScanKeepsInv(c, url, st, links[..|links| - 1]);
      var (st', edges) := Scan(c, url, st, links[..|links| - 1]);
      ConsiderKeepsInv(c, url, st', edges, links[|links| - 1]);
    }
  }

  /**
   * The edge list a page gets is duplicate-free, never holds the page itself, and holds
   * only links of the page that are visited afterwards; the visited set only grows.
   */
  lemma {:induction false} ScanEdges(c: Config, url: string, st: State, links: seq<string>)
    ensures st.visitedSet <= Scan(c, url, st, links).0.visitedSet
    ensures GoodEdges(url, Scan(c, url, st, links).0.visitedSet, Scan(c, url, st, links).1)
    ensures forall v :: v in Scan(c, url, st, links).1 ==> v in links
  {
    if links != [] {
      var init := links[..|links| - 1];
      ScanEdges(c, url, st, init);
      var (st', edges) := Scan(c, url, st, init);
      var link := links[|links| - 1];
      var (st'', edges') := Consider(c, url, st', edges, link);
      assert forall v :: v in init ==> v in links;
      if edges' != edges {
        assert edges' == edges + [link] && link !in edges;
      }
    }
  }

  /** Expanding a page only appends: to the visited list, and the same vertices to the queue and the visited set. */
  lemma {:induction false} ScanGrows(c: Config, url: string, st: State, links: seq<string>)
    ensures var after := Scan(c, url, st, links).0;
      && |st.visitedList| <= |after.visitedList|
      && after.visitedList[..|st.visitedList|] == st.visitedList
      && after.waitingQ == st.waitingQ + after.visitedList[|st.visitedList|..]
      && after.visitedSet == st.visitedSet + Elements(after.visitedList[|st.visitedList|..])
  {
    if links != [] {
      var init := links[..|links| - 1];
      ScanGrows(c, url, st, init);
      var (st', edges) := Scan(c, url, st, init);
      var link := links[|links| - 1];
      var st'' := Consider(c, url, st', edges, link).0;
      if st'' != st' {
        var n := |st.visitedList|;
        assert st''.visitedList[n..] == st'.visitedList[n..] + [link];
        assert st''.visitedList[..n] == st'.visitedList[..n];
      }
    }
  }

  /** Every vertex that expanding a page admits was new, became an edge, and passed the `/wiki/`, validity and topic tests. */
  lemma {:induction false} ScanAdmits(c: Config, url: string, st: State, links: seq<string>)
    ensures var (after, edges) := Scan(c, url, st, links);
      forall j :: |st.visitedList| <= j < |after.visitedList| ==>
        var v := after.visitedList[j];
        && v !in st.visitedSet
        && v in edges
        && StartsWith(v, WIKI_PREFIX)
        && IsValidPage(v, c.disallowed)
        && AboutTopics(c.keywords, c.web, v)
  {
    if links != [] {
      var init := links[..|links| - 1];
      ScanAdmits(c, url, st, init);
      ScanEdges(c, url, st, init);
      var (st', edges) := Scan(c, url, st, init);
      var link := links[|links| - 1];
      var (st'', edges') := Consider(c, url, st', edges, link);
      if st'' != st' {
        assert forall j :: |st.visitedList| <= j < |st'.visitedList| ==> st''.visitedList[j] == st'.visitedList[j];
        assert link !in st.visitedSet;
      }
    }
  }

  /**
   * Expanding a page appends the same admitted vertices to the visited list and to the
   * queue, and adds them to the visited set; each was new, became an edge, and passed
   * the `/wiki/`, validity and topic tests.
   */
  lemma ScanAppends(c: Config, url: string, st: State, links: seq<string>)
    ensures Appended(c, st, Scan(c, url, st, links).0, Scan(c, url, st, links).1)
  {
    ScanGrows(c, url, st, links);
    ScanAdmits(c, url, st, links);
  }

  /** Every link of the page that was visited before the page was expanded becomes one of its edges, unless it is the page itself. */
  lemma {:induction false} ScanKeepsVisitedLinks(c: Config, url: string, st: State, links: seq<string>)
    ensures forall v :: v in links && v != url && v in st.visitedSet ==> v in Scan(c, url, st, links).1
  {
    if links != [] {
      var init := links[..|links| - 1];
      ScanKeepsVisitedLinks(c, url, st, init);
      ScanEdges(c, url, st, init);
      forall v | v in links && v != url && v in st.visitedSet
        ensures v in Scan(c, url, st, links).1
      {
        if v in init {
          assert v in Scan(c, url, st, init).1;
        } else {
          assert v == links[|links| - 1];
        }
      }
    }
  }

  /** Once the visited set has reached the cap, expanding a page admits nothing. */
  lemma {:induction false} ScanAtCap(c: Config, url: string, st: State, links: seq<string>)
    requires |st.visitedSet| >= c.max
    ensures Scan(c, url, st, links).0 == st
  {
    if links != [] {
      ScanAtCap(c, url, st, links[..|links| - 1]);
    }
  }

  /** A dropped link stays dropped whatever link is considered next. */
  lemma ConsiderKeepsDropped(c: Config, url: string, st: State, edges: seq<string>, link: string, v: string)
    requires Dropped(c, st.visitedSet, v)
    ensures Dropped(c, Consider(c, url, st, edges, link).0.visitedSet, v)
  {
  }

  /** A dropped link stays dropped however many pages are expanded after it was turned away. */
  lemma {:induction false} ScanKeepsDropped(c: Config, url: string, st: State, links: seq<string>, v: string)
    requires Dropped(c, st.visitedSet, v)
    ensures Dropped(c, Scan(c, url, st, links).0.visitedSet, v)
  {
    if links != [] {
      ScanKeepsDropped(c, url, st, links[..|links| - 1], v);
      var (st', edges) := Scan(c, url, st, links[..|links| - 1]);
      ConsiderKeepsDropped(c, url, st', edges, links[|links| - 1], v);
    }
  }

  /** Every link of the page other than the page itself becomes one of its edges, or is dropped. */
  lemma {:induction false} ScanCovers(c: Config, url: string, st: State, links: seq<string>)
    ensures forall v :: v in links && v != url ==>
      v in Scan(c, url, st, links).1 || Dropped(c, Scan(c, url, st, links).0.visitedSet, v)
  {
    if links != [] {
      var init := links[..|links| - 1];
      var link := links[|links| - 1];
      ScanCovers(c, url, st, init);
      var (st', edges) := Scan(c, url, st, init);
      var (st'', edges') := Consider(c, url, st', edges, link);
      forall v | v in links && v != url
        ensures v in edges' || Dropped(c, st''.visitedSet, v)
      {
        if v in init && Dropped(c, st'.visitedSet, v) {
          ConsiderKeepsDropped(c, url, st', edges, link, v);
        } else if v in init {
          assert v in edges;
        } else {
          assert v == link;
        }
      }
    }
  }
}
