/**
 * The focused crawler: it reads the robots.txt exclusions, checks its arguments and the
 * seed, then expands pages breadth-first from the seed, admitting a linked page as a new
 * vertex only while fewer than `max` pages are visited and only if it is a valid `/wiki/`
 * page whose raw text mentions every keyword, and finally writes the edge list.
 */
module Crawler {
  import opened Wrappers
  import opened JavaText
  import opened Seqs
  import opened WebPages
  import opened Frontier
  import opened GraphFile

  /** The constructor's IllegalArgumentExceptions, and a robots.txt that can never be fetched. */
  datatype ConfigError = EmptyKeywords | NonPositiveMax | RobotsUnavailable | InvalidSeed | OffTopicSeed

  /** The exceptions that escape `crawl`. */
  datatype CrawlError =
    | NoParagraph(url: string)       // a fetched page with no "<p>" line: reading past its end
    | MissingAdjacency(url: string)  // a visited page whose fetch failed has no edge list to write

  /**
   * `getDisallowedSites`, once robots.txt has been read: the excluded wiki page of every
   * disallow line, each a `/wiki/` path.
   */
  method GetDisallowedSites(lines: seq<string>) returns (sites: set<string>)
    ensures sites == DisallowedSites(lines)
    ensures forall s :: s in sites ==> StartsWith(s, WIKI_PREFIX)
  {
    sites := {};
    var k := 0;
    while k < |lines|
      invariant 0 <= k <= |lines|
      invariant sites == DisallowedSites(lines[..k])
      invariant forall s :: s in sites ==> StartsWith(s, WIKI_PREFIX)
    {
      var line := lines[k];
      DisallowedSitesSnoc(lines[..k], line);
      assert lines[..k + 1] == lines[..k] + [line];
      if Contains(line, DISALLOW_MARKER) {
        sites := sites + {DisallowEntry(line)};
      }
      k := k + 1;
    }
    assert lines[..k] == lines;
  }

  /** The keywords, lower-cased, as a set. */
  function Lowered(keywords: seq<string>): set<string>
  {
    set j | 0 <= j < |keywords| :: ToLower(keywords[j])
  }

  /** The constructor's keyword loop: every keyword, lower-cased, into a set. */
  method LowerKeywords(keywords: seq<string>) returns (lowered: set<string>)
    ensures forall j :: 0 <= j < |keywords| ==> ToLower(keywords[j]) in lowered
    ensures forall k :: k in lowered ==> exists j :: 0 <= j < |keywords| && k == ToLower(keywords[j])
    ensures |lowered| <= |keywords|
    ensures lowered == Lowered(keywords)
  {
    lowered := {};
    for i := 0 to |keywords|
      invariant lowered == Lowered(keywords[..i])
      invariant |lowered| <= i
    {
      assert Lowered(keywords[..i + 1]) == Lowered(keywords[..i]) + {ToLower(keywords[i])} by {
        assert forall j :: 0 <= j < i ==> keywords[..i + 1][j] == keywords[..i][j];
      }
      lowered := lowered + {ToLower(keywords[i])};
    }
    assert keywords[..|keywords|] == keywords;
  }

  /** Recording a good edge list keeps every recorded edge list good as the visited set grows. */
  lemma AdjacencyGrows(graph: map<string, seq<string>>, visited: set<string>, visited': set<string>,
                       url: string, edges: seq<string>)
    requires forall u :: u in graph ==> u in visited && GoodEdges(u, visited, graph[u])
    requires visited <= visited' && url in visited && GoodEdges(url, visited', edges)
    ensures forall u :: u in graph[url := edges] ==>
      u in visited' && GoodEdges(u, visited', graph[url := edges][u])
  {
  }

  /**
   * Expanding a visited page keeps the frontier invariant and the good edge lists of the
   * pages expanded before, gives the page a good edge list, and appends its new vertices.
   */
  lemma Expansion(c: Frontier.Config, url: string, st: Frontier.State, graph: map<string, seq<string>>,
                  links: seq<string>)
    requires Inv(c.max, st) && url in st.visitedSet
    requires forall u :: u in graph ==> u in st.visitedSet && GoodEdges(u, st.visitedSet, graph[u])
    ensures Inv(c.max, Scan(c, url, st, links).0)
    ensures forall u :: u in graph[url := Scan(c, url, st, links).1] ==>
      && u in Scan(c, url, st, links).0.visitedSet
      && GoodEdges(u, Scan(c, url, st, links).0.visitedSet, graph[url := Scan(c, url, st, links).1][u])
    ensures Appended(c, st, Scan(c, url, st, links).0, Scan(c, url, st, links).1)
  {
    var (st', edges) := Scan(c, url, st, links);
    ScanKeepsInv(c, url, st, links);
    ScanEdges(c, url, st, links);
    ScanAppends(c, url, st, links);
    AdjacencyGrows(graph, st.visitedSet, st'.visitedSet, url, edges);
  }

  /**
   * The edge list of an expanded page against the page's links from its first "<p>" line
   * on: every edge is one of those links, and every other link of the page became an edge
   * or was dropped.
   */
  ghost predicate Covers(c: Frontier.Config, visited: set<string>, u: string, edges: seq<string>)
  {
    var address := AbsoluteAddress(u);
    && address in c.web && ParagraphStart(c.web[address], 0).Some?
    && (forall v :: v in edges ==> v in PageLinks(c.web[address]))
    && (forall v :: v in PageLinks(c.web[address]) && v != u ==> v in edges || Dropped(c, visited, v))
  }

  /**
   * `graph[u]` is the web graph restricted to the collected pages: duplicate-free, and
   * holding exactly the links of u's page, from its first "<p>" line on, that lead to
   * another collected page.
   */
  ghost predicate InducedEdges(web: Web, visited: set<string>, u: string, edges: seq<string>)
  {
    var address := AbsoluteAddress(u);
    && address in web && ParagraphStart(web[address], 0).Some?
    && Distinct(edges)
    && forall v :: v in edges <==> v in PageLinks(web[address]) && v in visited && v != u
  }

  /** Expanding a page keeps every collected page other than the seed a valid page about the topics. */
  lemma ScanOnTopic(c: Frontier.Config, url: string, st: Frontier.State, links: seq<string>, seed: string)
    requires forall v :: v in st.visitedSet && v != seed ==> OnTopic(c, v)
    ensures forall v :: v in Scan(c, url, st, links).0.visitedSet && v != seed ==> OnTopic(c, v)
  {
    var st' := Scan(c, url, st, links).0;
    ScanAppends(c, url, st, links);
    forall v | v in st'.visitedSet && v != seed
      ensures OnTopic(c, v)
    {
      if v !in st.visitedSet {
        var k := |st.visitedList|;
        assert v in st'.visitedList[k..];
        var j :| 0 <= j < |st'.visitedList[k..]| && st'.visitedList[k..][j] == v;
        assert st'.visitedList[k + j] == v;
      }
    }
  }

  /** Expanding another page keeps an edge list covering its page's links. */
  lemma CoversKept(c: Frontier.Config, url: string, st: Frontier.State, links: seq<string>, u: string, edges: seq<string>)
    requires Covers(c, st.visitedSet, u, edges)
    ensures Covers(c, Scan(c, url, st, links).0.visitedSet, u, edges)
  {
    forall v | v in PageLinks(c.web[AbsoluteAddress(u)]) && v != u && v !in edges
      ensures Dropped(c, Scan(c, url, st, links).0.visitedSet, v)
    {
      ScanKeepsDropped(c, url, st, links, v);
    }
  }

  /** The edge list a fetched page gets covers the page's links. */
  lemma CoversNew(c: Frontier.Config, url: string, st: Frontier.State)
    requires AbsoluteAddress(url) in c.web && ParagraphStart(c.web[AbsoluteAddress(url)], 0).Some?
    ensures var after := Scan(c, url, st, PageLinks(c.web[AbsoluteAddress(url)]));
      Covers(c, after.0.visitedSet, url, after.1)
  {
    var links := PageLinks(c.web[AbsoluteAddress(url)]);
    ScanEdges(c, url, st, links);
    ScanCovers(c, url, st, links);
  }

  /** Every page among the first `n` of `list` was expanded (it has an edge list in `graph`), or its fetch failed. */
  ghost predicate Expanded(list: seq<string>, graph: map<string, seq<string>>, web: Web, n: int)
  {
    forall j :: 0 <= j < n && j < |list| ==> list[j] in graph || AbsoluteAddress(list[j]) !in web
  }

  /** Expanding the next page of the visited list extends the expanded prefix by that page. */
  lemma ExpandedGrows(list: seq<string>, graph: map<string, seq<string>>, list': seq<string>,
                      graph': map<string, seq<string>>, web: Web, k: nat)
    requires k < |list| <= |list'| && list'[..|list|] == list
    requires graph.Keys <= graph'.Keys
    requires Expanded(list, graph, web, k)
    requires list[k] in graph' || AbsoluteAddress(list[k]) !in web
    ensures Expanded(list', graph', web, k + 1)
  {
    forall j | 0 <= j < k + 1 && j < |list'|
      ensures list'[j] in graph' || AbsoluteAddress(list'[j]) !in web
    {
      assert list'[j] == list[j];
    }
  }

  class WikiCrawler {
    const seedUrl: string
    const keywordsSet: set<string>
    const max: int
    const disallowedSites: set<string>
    /** The pages this crawler can fetch. */
    const web: Web
    var visitedSet: set<string>
    var visitedList: seq<string>
    var waitingQ: seq<string>
    var graph: map<string, seq<string>>
    var numOfEdges: int

    function Config(): Frontier.Config
    {
      Frontier.Config(max, disallowedSites, keywordsSet, web)
    }

    function State(): Frontier.State
      reads this
    {
      Frontier.State(visitedSet, visitedList, waitingQ)
    }

    /**
     * The crawler's invariant: the frontier invariant (cap, list = set in order, queue a
     * suffix of the list, every vertex a `/wiki/` page); every vertex but the seed a valid
     * page about the topics; and, for every expanded page, an edge list that is
     * duplicate-free, has no self-loop, only leads to visited pages, and covers the links
     * of the page.
     */
    ghost predicate Valid()
      reads this`visitedSet, this`visitedList, this`waitingQ, this`graph
    {
      && max > 0
      && StartsWith(seedUrl, WIKI_PREFIX)
      && Inv(max, Frontier.State(visitedSet, visitedList, waitingQ))
      && (forall v :: v in visitedSet && v != seedUrl ==> OnTopic(Config(), v))
      && (forall u :: u in graph ==> u in visitedSet && GoodEdges(u, visitedSet, graph[u]))
      && (forall u :: u in graph ==> Covers(Config(), visitedSet, u, graph[u]))
    }

    /**
     * The graph recorded so far is the web graph on the collected pages: every edge list is
     * exactly the links of its page that lead to another collected page.
     */
    lemma CollectedGraph()
      requires Valid()
      ensures forall u :: u in graph ==> InducedEdges(web, visitedSet, u, graph[u])
    {
      forall u | u in graph
        ensures InducedEdges(web, visitedSet, u, graph[u])
      {
        assert Covers(Config(), visitedSet, u, graph[u]);
        assert GoodEdges(u, visitedSet, graph[u]);
      }
    }

    constructor Init(seedUrl: string, keywordsSet: set<string>, max: int, disallowedSites: set<string>, web: Web)
      requires max > 0 && StartsWith(seedUrl, WIKI_PREFIX)
      ensures this.seedUrl == seedUrl && this.keywordsSet == keywordsSet && this.max == max
      ensures this.disallowedSites == disallowedSites && this.web == web
      ensures visitedSet == {} && visitedList == [] && waitingQ == [] && graph == map[] && numOfEdges == 0
      ensures Valid()
    {
      this.seedUrl := seedUrl;
      this.keywordsSet := keywordsSet;
      this.max := max;
      this.disallowedSites := disallowedSites;
      this.web := web;
      visitedSet := {};
      visitedList := [];
      waitingQ := [];
      graph := map[];
      numOfEdges := 0;
      new;
      assert Elements(visitedList) == {};
    }

    /**
     * The constructor `WikiCrawler(seedUrl, keywords, max, fileName)`: keywords must be
     * non-empty and are kept lower-cased, `max` must be positive, robots.txt is read, and
     * the seed (as given, before trimming) must be a valid `/wiki/` page about the topics.
     * The crawler keeps the trimmed seed.
     */
    static method Create(seedUrl: string, keywords: seq<string>, max: int, web: Web)
      returns (r: Result<WikiCrawler, ConfigError>)
      ensures |keywords| == 0 ==> r == Failure(EmptyKeywords)
      ensures |keywords| > 0 && max <= 0 ==> r == Failure(NonPositiveMax)
      ensures |keywords| > 0 && max > 0 && ROBOTS_ADDRESS !in web ==> r == Failure(RobotsUnavailable)
      ensures |keywords| > 0 && max > 0 && ROBOTS_ADDRESS in web ==>
        var disallowed := DisallowedSites(web[ROBOTS_ADDRESS]);
        if !(IsValidPage(seedUrl, disallowed) && StartsWith(seedUrl, WIKI_PREFIX)) then r == Failure(InvalidSeed)
        else if !AboutTopics(Lowered(keywords), web, seedUrl) then r == Failure(OffTopicSeed)
        else
          && r.Success? && fresh(r.value) && r.value.Valid()
          && r.value.seedUrl == Trim(seedUrl) && r.value.keywordsSet == Lowered(keywords)
          && r.value.max == max && r.value.disallowedSites == disallowed && r.value.web == web
          && r.value.visitedList == [] && r.value.graph == map[] && r.value.numOfEdges == 0
    {
      var seed := Trim(seedUrl);
      if |keywords| == 0 {
        r := Failure(EmptyKeywords);
      } else {
        var lowered := LowerKeywords(keywords);
        if max <= 0 {
          r := Failure(NonPositiveMax);
        } else if ROBOTS_ADDRESS !in web {
          r := Failure(RobotsUnavailable);
        } else {
          var disallowed := GetDisallowedSites(web[ROBOTS_ADDRESS]);
          if !(IsValidPage(seedUrl, disallowed) && StartsWith(seedUrl, WIKI_PREFIX)) {
            r := Failure(InvalidSeed);
          } else {
            TrimKeepsWikiPrefix(seedUrl);
            var c := new WikiCrawler.Init(seed, lowered, max, disallowed, web);
            var about := c.IsAboutTopics(seedUrl);
            r := if about then Success(c) else Failure(OffTopicSeed);
          }
        }
      }
    }

    /**
     * `isAboutTopics(url)`: reads the page's raw text line by line, striking out every
     * keyword the lower-cased line contains, and answers true as soon as none is left;
     * false when the text ends first or cannot be fetched.
     */
    method IsAboutTopics(url: string) returns (about: bool)
      requires StartsWith(url, WIKI_PREFIX)
      ensures about == AboutTopics(keywordsSet, web, url)
    {
      var topics := keywordsSet;
      var address := TextPageAddress(url);
      if address !in web {
        return false;
      }
      var lines := web[address];
      var i := 0;
      while topics != {}
        invariant 0 <= i <= |lines|
        invariant topics == set k | k in keywordsSet && !MentionedBefore(lines, k, i)
        decreases |lines| - i
      {
        if i == |lines| {
          ghost var missing :| missing in topics;
          return false;
        }
        var lower := ToLower(lines[i]);
        ghost var before := topics;
        var pending := topics;
        while pending != {}
          invariant pending <= before
          invariant topics == before - set k | k in before && k !in pending && Contains(lower, k)
          decreases |pending|
        {
          var s :| s in pending;
          if Contains(lower, s) {
            topics := topics - {s};
          }
          pending := pending - {s};
        }
        assert forall k :: MentionedBefore(lines, k, i + 1) <==> MentionedBefore(lines, k, i) || Contains(lower, k);
        i := i + 1;
      }
      forall k | k in keywordsSet ensures MentionedBefore(lines, k, |lines|) {
        assert k !in topics;
        MentionedLater(lines, k, i, |lines|);
      }
      return true;
    }

    /**
     * The body of `extractLinks` for one extracted link: a repeated link and the page
     * itself are ignored; a visited link becomes an edge; a new link becomes an edge and
     * a vertex at the tail of the visited list and of the queue when the cap has room and
     * it is a valid `/wiki/` page about the topics.
     */
    method ConsiderLink(url: string, link: string, edgeSet: set<string>, edgeList: seq<string>,
                        ghost st0: Frontier.State, ghost done: seq<string>)
      returns (edgeSet': set<string>, edgeList': seq<string>)
      requires edgeSet == Elements(edgeList)
      requires (State(), edgeList) == Scan(Config(), url, st0, done)
      modifies this`visitedSet, this`visitedList, this`waitingQ
      ensures (State(), edgeList') == Scan(Config(), url, st0, done + [link])
      ensures edgeSet' == Elements(edgeList')
    {
      ScanSnoc(Config(), url, st0, done, link);
      edgeSet', edgeList' := edgeSet, edgeList;
      if link !in edgeSet && link != url {
        if link in visitedSet {
          edgeSet' := edgeSet + {link};
          edgeList' := edgeList + [link];
        } else if |visitedSet| < max {
          if StartsWith(link, WIKI_PREFIX) && IsValidPage(link, disallowedSites) {
            var about := IsAboutTopics(link);
            if about {
              edgeSet' := edgeSet + {link};
              edgeList' := edgeList + [link];
              visitedSet := visitedSet + {link};
              visitedList := visitedList + [link];
              waitingQ := waitingQ + [link];
            }
          }
        }
      }
    }

    /** One piece of a line split on "href=": its link, if well formed, goes through the admission rule. */
    method ConsiderPiece(url: string, piece: string, edgeSet: set<string>, edgeList: seq<string>,
                         ghost st0: Frontier.State, ghost done: seq<string>)
      returns (edgeSet': set<string>, edgeList': seq<string>)
      requires edgeSet == Elements(edgeList)
      requires (State(), edgeList) == Scan(Config(), url, st0, done)
      modifies this`visitedSet, this`visitedList, this`waitingQ
      ensures (State(), edgeList') == Scan(Config(), url, st0, done + PieceLinks(piece))
      ensures edgeSet' == Elements(edgeList')
    {
      var segment := SegmentLink(piece);
      if segment.Some? {
        edgeSet', edgeList' := ConsiderLink(url, segment.value, edgeSet, edgeList, st0, done);
      } else {
        assert done + PieceLinks(piece) == done;
        edgeSet', edgeList' := edgeSet, edgeList;
      }
    }

    /**
     * The body of `extractLinks` for one line, once it is split on "href=": every piece
     * after the first yields its link, if well formed, in order.
     */
    method ExtractLine(url: string, line: string, edgeSet: set<string>, edgeList: seq<string>,
                       ghost st0: Frontier.State, ghost done: seq<string>)
      returns (edgeSet': set<string>, edgeList': seq<string>)
      requires edgeSet == Elements(edgeList)
      requires (State(), edgeList) == Scan(Config(), url, st0, done)
      modifies this`visitedSet, this`visitedList, this`waitingQ
      ensures (State(), edgeList') == Scan(Config(), url, st0, done + LineLinks(line))
      ensures edgeSet' == Elements(edgeList')
    {
      edgeSet', edgeList' := edgeSet, edgeList;
      var links := Split(line, HREF_MARKER);
      LineLinksPieces(line);
      if |links| == 0 {
        assert done + LineLinks(line) == done;
        return;
      }
      var pieces := links[1..];
      ghost var acc := done;
      var j := 0;
      while j < |pieces|
        invariant j <= |pieces|
        invariant acc == done + SegmentsLinks(pieces[..j])
        invariant (State(), edgeList') == Scan(Config(), url, st0, acc)
        invariant edgeSet' == Elements(edgeList')
      {
        edgeSet', edgeList' := ConsiderPiece(url, pieces[j], edgeSet', edgeList', st0, acc);
        SegmentsLinksStep(pieces, j);
        AppendAssoc(done, SegmentsLinks(pieces[..j]), PieceLinks(pieces[j]));
        acc := acc + PieceLinks(pieces[j]);
        j := j + 1;
      }
      assert pieces[..j] == pieces;
    }

    /** The lines of `extractLinks` from the first "<p>" line on, each in turn. */
    method ExtractFrom(url: string, page: seq<string>) returns (edgeList: seq<string>)
      modifies this`visitedSet, this`visitedList, this`waitingQ
      ensures (State(), edgeList) == Scan(Config(), url, old(State()), LinesLinks(page))
    {
      ghost var st0 := State();
      var edgeSet: set<string> := {};
      edgeList := [];
      ghost var done: seq<string> := [];
      var i := 0;
      while i < |page|
        invariant i <= |page|
        invariant done == LinesLinks(page[..i])
        invariant (State(), edgeList) == Scan(Config(), url, st0, done)
        invariant edgeSet == Elements(edgeList)
      {
        LinesLinksStep(page, i);
        edgeSet, edgeList := ExtractLine(url, page[i], edgeSet, edgeList, st0, done);
        done := done + LineLinks(page[i]);
        i := i + 1;
      }
      assert page[..i] == page;
    }

    /**
     * `extractLinks(url)`: fetches the page, skips to its first "<p>" line and, for every
     * link from there on, applies the admission rule; the page's edge list is recorded in
     * the graph. A page that cannot be fetched is left without an edge list; a page with no
     * "<p>" line makes the source fail (`ok` is false).
     */
    method ExtractLinks(url: string) returns (ok: bool)
      requires Valid() && url in visitedSet
      modifies this`visitedSet, this`visitedList, this`waitingQ, this`graph
      ensures Valid()
      ensures AbsoluteAddress(url) !in web ==> ok && State() == old(State()) && graph == old(graph)
      ensures AbsoluteAddress(url) in web && ParagraphStart(web[AbsoluteAddress(url)], 0).None? ==>
        !ok && State() == old(State()) && graph == old(graph)
      ensures AbsoluteAddress(url) in web && ParagraphStart(web[AbsoluteAddress(url)], 0).Some? ==>
        && ok && url in graph
        && (State(), graph[url]) == Scan(Config(), url, old(State()), PageLinks(web[AbsoluteAddress(url)]))
        && graph == old(graph)[url := graph[url]]
      ensures Appended(Config(), old(State()), State(), if url in graph then graph[url] else [])
    {
      var address := AbsoluteAddress(url);
      if address !in web {
        AppendedNothing(Config(), State(), []);
        return true;
      }
      var lines := web[address];
      var i := 0;
      while i < |lines| && !Contains(lines[i], PARAGRAPH_MARKER)
        invariant 0 <= i <= |lines|
        invariant forall j :: 0 <= j < i ==> !Contains(lines[j], PARAGRAPH_MARKER)
      {
        i := i + 1;
      }
      if i == |lines| {
        AppendedNothing(Config(), State(), []);
        return false;
      }
      assert ParagraphStart(lines, 0) == Some(i);
      var edgeList := ExtractFrom(url, lines[i..]);
      graph := graph[url := edgeList];
      Expansion(Config(), url, old(State()), old(graph), PageLinks(lines));
      ScanOnTopic(Config(), url, old(State()), PageLinks(lines), seedUrl);
      CoversNew(Config(), url, old(State()));
      forall u | u in old(graph)
        ensures Covers(Config(), visitedSet, u, old(graph)[u])
      {
        CoversKept(Config(), url, old(State()), PageLinks(lines), u, old(graph)[u]);
      }
      ok := true;
    }

    /**
     * `crawl()`: puts the seed in the visited set, the visited list and the queue, then
     * expands queued pages in FIFO order until the queue is empty, and writes the graph.
     * It terminates because each expansion either admits new vertices, which the cap
     * bounds, or shortens the queue.
     */
    method Crawl() returns (r: Result<seq<string>, CrawlError>)
      requires Valid() && visitedList == [] && graph == map[]
      modifies this`visitedSet, this`visitedList, this`waitingQ, this`graph, this`numOfEdges
      ensures Valid()
      ensures |visitedList| >= 1 && visitedList[0] == seedUrl
      ensures forall v :: v in visitedSet && v != seedUrl ==> OnTopic(Config(), v)
      ensures forall u :: u in graph ==> InducedEdges(web, visitedSet, u, graph[u])
      ensures r.Success? ==>
        && waitingQ == []
        && (forall v :: v in visitedList ==> v in graph)
        && r.value == FileLines(max, EdgesInOrder(visitedList, graph))
        && numOfEdges == old(numOfEdges) + |EdgesInOrder(visitedList, graph)|
      ensures r.Failure? && r.error.MissingAdjacency? ==>
        && waitingQ == [] && r.error.url in visitedSet && r.error.url !in graph
        && AbsoluteAddress(r.error.url) !in web
      ensures r.Failure? && r.error.NoParagraph? ==>
        && r.error.url in visitedSet && AbsoluteAddress(r.error.url) in web
        && ParagraphStart(web[AbsoluteAddress(r.error.url)], 0).None?
    {
      VisitSeed();
      var failed := ExpandAll();
      CollectedGraph();
      if failed.Some? {
        return Failure(NoParagraph(failed.value));
      }
      ghost var list, g := visitedList, graph;
      assert forall j :: 0 <= j < |list| ==> list[j] in g || AbsoluteAddress(list[j]) !in web;
      r := OutputGraph();
      if r.Failure? {
        var j :| 0 <= j < |visitedList| && r.error == MissingAdjacency(visitedList[j]) && visitedList[j] !in graph;
        assert r.error.url in visitedSet;
      }
    }

    /** The start of `crawl()`: the seed is visited and queued. */
    method VisitSeed()
      requires Valid() && visitedList == [] && graph == map[]
      modifies this`visitedSet, this`visitedList, this`waitingQ
      ensures Valid() && visitedList == [seedUrl] && waitingQ == [seedUrl] && graph == map[]
    {
      visitedSet := visitedSet + {seedUrl};
      visitedList := visitedList + [seedUrl];
      waitingQ := waitingQ + [seedUrl];
      DistinctCardinality(visitedList);
    }

    /**
     * The loop of `crawl()`: queued pages are expanded in FIFO order until the queue is
     * empty, or until a fetched page without a "<p>" line makes the source fail.
     */
    method ExpandAll() returns (failed: Option<string>)
      requires Valid() && visitedList == [seedUrl] && waitingQ == [seedUrl] && graph == map[]
      modifies this`visitedSet, this`visitedList, this`waitingQ, this`graph
      ensures Valid() && |visitedList| >= 1 && visitedList[0] == seedUrl
      ensures failed.None? ==> waitingQ == [] && ExpandedBefore(|visitedList|)
      ensures failed.Some? ==>
        && failed.value in visitedSet && AbsoluteAddress(failed.value) in web
        && ParagraphStart(web[AbsoluteAddress(failed.value)], 0).None?
    {
      while waitingQ != []
        invariant Valid()
        invariant |visitedList| >= 1 && visitedList[0] == seedUrl
        invariant |visitedList| <= max
        invariant ExpandedBefore(|visitedList| - |waitingQ|)
        decreases max - |visitedList|, |waitingQ|
      {
        var url, ok := ExpandNext();
        if !ok {
          return Some(url);
        }
      }
      return None;
    }

    /**
     * One turn of the crawl loop: the head of the queue is dequeued and expanded. The
     * expanded prefix of the visited list grows by one page, or the source fails.
     */
    method ExpandNext() returns (url: string, ok: bool)
      requires Valid() && waitingQ != []
      requires |visitedList| <= max
      requires ExpandedBefore(|visitedList| - |waitingQ|)
      modifies this`visitedSet, this`visitedList, this`waitingQ, this`graph
      ensures Valid()
      ensures |old(visitedList)| <= |visitedList| <= max
      ensures visitedList[..|old(visitedList)|] == old(visitedList)
      ensures |visitedList| == |old(visitedList)| ==> |waitingQ| < |old(waitingQ)|
      ensures ok ==> ExpandedBefore(|visitedList| - |waitingQ|)
      ensures !ok ==>
        url in visitedSet && AbsoluteAddress(url) in web && ParagraphStart(web[AbsoluteAddress(url)], 0).None?
    {
      ghost var k := |visitedList| - |waitingQ|;
      ghost var list := visitedList;
      ghost var g := graph;
      ghost var queue := waitingQ;
      url := waitingQ[0];
      assert url == visitedList[k];
      waitingQ := waitingQ[1..];
      assert waitingQ == visitedList[|visitedList| - |waitingQ|..];
      ghost var before := State();
      ok := ExtractLinks(url);
      AppendedPositions(Config(), before, State(), if url in graph then graph[url] else []);
      assert visitedList[..|list|] == list;
      DistinctCardinality(visitedList);
      if ok {
        ExpandedGrows(list, g, visitedList, graph, web, k);
      }
    }

    /** Every page among the first `n` visited was expanded, or its fetch failed. */
    ghost predicate ExpandedBefore(n: int)
      reads this`visitedList, this`graph
    {
      Expanded(visitedList, graph, web, n)
    }

    /**
     * `outputGraph()`: the declared count `max` on the first line, then `s1 s2` for every
     * edge, sources in visiting order and each source's edges in extraction order, counting
     * the edges. A visited page without an edge list makes the source fail.
     */
    method OutputGraph() returns (r: Result<seq<string>, CrawlError>)
      requires max >= 0
      modifies this`numOfEdges
      ensures r.Success? <==> forall v :: v in visitedList ==> v in graph
      ensures r.Success? ==>
        && r.value == FileLines(max, EdgesInOrder(visitedList, graph))
        && numOfEdges == old(numOfEdges) + |EdgesInOrder(visitedList, graph)|
      ensures r.Failure? ==>
        exists j :: (0 <= j < |visitedList| && r.error == MissingAdjacency(visitedList[j])
          && visitedList[j] !in graph && forall i :: 0 <= i < j ==> visitedList[i] in graph)
    {
      var lines := [NatToString(max)];
      ghost var written: seq<Edge> := [];
      var k := 0;
      while k < |visitedList| && visitedList[k] in graph
        invariant 0 <= k <= |visitedList|
        invariant forall i :: 0 <= i < k ==> visitedList[i] in graph
        invariant written == EdgesInOrder(visitedList[..k], graph)
        invariant lines == FileLines(max, written)
        invariant numOfEdges == old(numOfEdges) + |written|
      {
        var s1 := visitedList[k];
        EdgesInOrderStep(visitedList, graph, k);
        FileLinesSnoc(max, written, EdgesFrom(s1, graph[s1]));
        lines := WriteEdges(s1, graph[s1], lines);
        written := written + EdgesFrom(s1, graph[s1]);
        k := k + 1;
      }
      if k < |visitedList| {
        r := Failure(MissingAdjacency(visitedList[k]));
      } else {
        assert visitedList[..k] == visitedList;
        r := Success(lines);
      }
    }

    /** The inner loop of `outputGraph`: one line `s1 s2` per edge of `s1`, each counted. */
    method WriteEdges(s1: string, edges: seq<string>, lines: seq<string>) returns (lines': seq<string>)
      modifies this`numOfEdges
      ensures lines' == lines + EdgeLines(EdgesFrom(s1, edges))
      ensures numOfEdges == old(numOfEdges) + |edges|
    {
      lines' := lines;
      var m := 0;
      while m < |edges|
        invariant 0 <= m <= |edges|
        invariant lines' == lines + EdgeLines(EdgesFrom(s1, edges[..m]))
        invariant numOfEdges == old(numOfEdges) + m
      {
        assert EdgesFrom(s1, edges[..m + 1]) == EdgesFrom(s1, edges[..m]) + [(s1, edges[m])];
        EdgeLinesConcat(EdgesFrom(s1, edges[..m]), [(s1, edges[m])]);
        lines' := lines' + [s1 + " " + edges[m]];
        numOfEdges := numOfEdges + 1;
        m := m + 1;
      }
      assert edges[..m] == edges;
    }
  }
}
