# Wiki crawler and ranker, modelled in Dafny

The repository has two halves, and both are modelled here.

The first is a focused web crawler over Wikipedia, `WikiCrawler`:
- It starts from a seed page and reads the robots.txt exclusions.
- It expands pages breadth-first.
- A linked page is admitted as a new vertex only while fewer than `max` pages are visited. It must be a valid `/wiki/` page whose raw text mentions every keyword.
- At the end it writes the resulting graph as an edge list.

The second is `PageRank`:
- It reads such an edge list back into out- and in-adjacency maps and a dense vertex index.
- It runs the PageRank power iteration (damping factor β = 0.85). The iteration stops once two successive rank vectors are within ε in L1 distance.
- It answers degree, rank, top-k and Jaccard-similarity queries.

Modules, in dependency order:

| module | file | what it holds |
|---|---|---|
| `Wrappers` | wrappers.dfy | `Option` and `Result` |
| `Seqs` | seqs.dfy | duplicate-free sequences, element sets, exact indexes |
| `JavaText` | java_text.dfy | the `String`/`Integer` operations the code relies on, with Java's edge cases |
| `GraphFile` | graph_file.dfy | the edge-list format: writer, parser, round trip |
| `WebPages` | web_pages.dfy | the web as a map from address to lines; addresses, page validity, robots.txt lines, link extraction, the topic test |
| `Frontier` | frontier.dfy | the admission rule for one extracted link, and the invariants it keeps |
| `Crawler` | crawler.dfy | class `WikiCrawler` |
| `Adjacency` | adjacency.dfy | `graphOut`/`graphIn` as functions of the edges read; degree sums; reading back a crawl |
| `RankMath` | rank_math.dfy | one PageRank step over `real`, rank mass, the iterates, the L1 distance |
| `Selection` | selection.dfy | `Pair.compareTo`, the stable sort, the top-k selection |
| `Similarity` | similarity.dfy | the Jaccard ratio |
| `Ranking` | page_rank.dfy | class `PageRank` and the loops of `simulateOneStep`, `computeRank`, `topK` and `computeJac` |

Both classes are imperative, as in the source:
- Fields the Java code updates are Dafny fields that the methods update under `modifies` clauses.
- Loops are `while`/`for` loops with invariants.
- The Java arrays (rank vectors, `allPairs`, `result`, the Jaccard signatures, the vertex slots) are Dafny arrays.

Each method is proved against a specification function, and the properties of the code are proved about those functions:
- The crawl is specified by the pure `Frontier.Scan`.
- The loader is specified by `Ranking.Load`, `Adjacency.OutLists` and `Adjacency.InLists`.
- The walk is specified by `RankMath.Step` and `RankMath.Iterate`.
- `topK` is specified by `Selection.TopIndices`.
- `computeJac` is specified by `Similarity.Jaccard`.

Errors are values:
- The crawler constructor's `IllegalArgumentException`s are `Crawler.ConfigError`.
- The crashes of `crawl` are `Crawler.CrawlError`.
- The exceptions of loading and ranking are `GraphFile.LoadError`.
- Those of the queries are `Ranking.QueryError`.

The vertex count is the declared one:
- `readGraph` returns the vertex count **declared** on the file's first line, not the number of distinct endpoints. That count sizes `verticesArray`.
- If the file has more distinct endpoints than declared, the index loop overflows the array (`TooManyVertices`).
- If it has fewer, slots stay null and the first step of the walk dereferences one (`NullVertex`).

## Model

| member | source | states |
|---|---|---|
| JavaText.IndexOf | src/WikiCrawler.java:170 | `indexOf` is the first occurrence, and -1 exactly when the string does not contain the text |
| JavaText.IndexOfChar | src/WikiCrawler.java:249-250 | `indexOf(c, from)` is the first position at or after `from` holding `c`, -1 exactly when there is none |
| JavaText.Trim | src/WikiCrawler.java:253 | `trim()` leaves no character up to the space at either end, and is no longer than the string |
| JavaText.TrimIsWindow | src/WikiCrawler.java:253 | `trim()` returns the window of the string left once the characters up to the space are cut off at both ends, and only those |
| JavaText.TrimKeepsPrefix | src/WikiCrawler.java:55 | trimming keeps a prefix that holds no blank |
| JavaText.SplitPair | src/PageRank.java:220 | splitting `u + " " + v` on a space gives `[u, v]` when neither part holds a space and `v` is non-empty |
| JavaText.SplitPieces | src/PageRank.java:220 | `split` returns the whole string when the separator does not occur, and otherwise the pieces between occurrences with exactly the trailing empty pieces removed |
| JavaText.SplitCutsAtSpace | src/PageRank.java:220 | `split(" ")` cuts at every space, so the second piece of `u + " " + v + " " + w` is `v` |
| JavaText.ParseInt | src/PageRank.java:216 | `Integer.parseInt` yields only 32-bit values; anything else is a format error |
| JavaText.NatToString | src/WikiCrawler.java:350 | the printed count is a non-empty run of digits whose value is the count |
| JavaText.ParseIntOfToString | src/PageRank.java:216 | parsing the printed count, trimmed, gives the count back |
| WebPages.TextPageAddressInjective | src/WikiCrawler.java:128-132 | two `/wiki/` pages share a raw-text address exactly when they are the same page |
| WebPages.TrimKeepsWikiPrefix | src/WikiCrawler.java:55-75 | the trimmed seed is still a `/wiki/` path |
| WebPages.FirstForbidden | src/WikiCrawler.java:143-147 | the character scan stops at the first `#` or `:`, and only there |
| WebPages.IsValidPage | src/WikiCrawler.java:142-153 | a page is valid exactly when it holds no `#`, no `:` and is not disallowed |
| WebPages.DisallowLineHasWikiPath | src/WikiCrawler.java:169-170 | a line with the disallow marker contains `/wiki/` |
| WebPages.DisallowEntry | src/WikiCrawler.java:169-172 | every disallow entry, taken from the first `/wiki/` and trimmed, starts with `/wiki/` |
| WebPages.DisallowedSitesSnoc | src/WikiCrawler.java:168-175 | each robots.txt line adds its entry exactly when it is a disallow line |
| WebPages.SegmentLinkOfQuoted | src/WikiCrawler.java:249-253 | a quoted non-empty attribute value yields that value, trimmed |
| WebPages.SegmentLinkOfEmptyValue | src/WikiCrawler.java:249-257 | an empty value `""` followed by no other quote is skipped, because the closing quote is searched from two past the opening one |
| WebPages.SegmentLinkOfUnterminated | src/WikiCrawler.java:249-257 | a piece with no closing quote is skipped and the scan goes on |
| WebPages.QuotedValueWhole | src/WikiCrawler.java:249-253 | a quoted value with nothing to trim at its ends is extracted whole, inner spaces included |
| WebPages.SpacedLinkPasses | src/WikiCrawler.java:142-153 | the piece `"/wiki/A B"` yields `/wiki/A B`, which holds a space and passes the page tests |
| WebPages.PieceLinks | src/WikiCrawler.java:248-258 | one `href=` piece contributes at most one link |
| WebPages.SegmentsLinksSnoc | src/WikiCrawler.java:248-276 | one more piece appends its link, if any, after the earlier ones |
| WebPages.LineLinksPieces | src/WikiCrawler.java:247-248 | a line's links are those of its `href=` pieces after the first |
| WebPages.LinesLinksSnoc | src/WikiCrawler.java:246-278 | one more line appends its links after those of the earlier lines |
| WebPages.ParagraphStart | src/WikiCrawler.java:242-245 | extraction starts at the first line holding `<p>`; there is none exactly when no line holds it |
| WebPages.MentionedLater | src/WikiCrawler.java:318-332 | a keyword struck out stays struck out as more lines are read |
| WebPages.MentionedBeforeWitness | src/WikiCrawler.java:324-329 | a keyword is struck out exactly when one single lower-cased line contains it |
| Frontier.ScanSnoc | src/WikiCrawler.java:248-276 | the links of a page are considered one after another, in order |
| Frontier.ConsiderKeepsInv | src/WikiCrawler.java:259-273 | one admission decision keeps the cap, the list as the set in order, and the queue as a suffix of the list |
| Frontier.ScanKeepsInv | src/WikiCrawler.java:246-278 | expanding a page keeps `|visitedSet| <= max` and the rest of the frontier invariant |
| Frontier.ScanEdges | src/WikiCrawler.java:259-275 | a page's edge list is duplicate-free, never names the page, names only pages visited afterwards and only links of the page; the visited set only grows |
| Frontier.ScanGrows | src/WikiCrawler.java:263-271 | expansion only appends, and appends the same vertices to the visited list, the queue and the visited set |
| Frontier.ScanAdmits | src/WikiCrawler.java:263-271 | every admitted vertex was new, became an edge, starts with `/wiki/`, is valid and is on-topic |
| Frontier.ScanAppends | src/WikiCrawler.java:263-271 | the two facts above together, as the `Appended` relation |
| Frontier.ScanKeepsVisitedLinks | src/WikiCrawler.java:260-262 | every link to a page visited before becomes an edge, unless it is the page itself |
| Frontier.ConsiderKeepsDropped | src/WikiCrawler.java:263-265 | a link turned away because the cap is reached or because it fails the tests is never admitted by a later decision |
| Frontier.ScanKeepsDropped | src/WikiCrawler.java:246-278 | a link turned away for good stays out of the visited set through any later expansion |
| Frontier.ScanCovers | src/WikiCrawler.java:259-275 | every link of the page other than the page itself becomes an edge, or is turned away for good |
| Frontier.ScanAtCap | src/WikiCrawler.java:263 | once the cap is reached, expansion admits nothing |
| Frontier.AppendedNothing | src/WikiCrawler.java:279-282 | a page that is not expanded appends nothing |
| Frontier.AppendedPositions | src/WikiCrawler.java:268-270 | after appending, the queue grew by as many vertices as the list, and earlier list positions are unchanged |
| Crawler.GetDisallowedSites | src/WikiCrawler.java:160-187 | the excluded pages are exactly the entries of the disallow lines, each a `/wiki/` path |
| Crawler.LowerKeywords | src/WikiCrawler.java:59-62 | the keyword set holds exactly the lower-cased keywords, and no more of them than there were keywords |
| Crawler.AdjacencyGrows | src/WikiCrawler.java:283 | recording a good edge list keeps every recorded edge list good as the visited set grows |
| Crawler.Expansion | src/WikiCrawler.java:218-284 | expanding a visited page keeps the invariant, gives it a good edge list and appends its new vertices |
| Crawler.ExpandedGrows | src/WikiCrawler.java:96-102 | expanding the next queued page extends the expanded prefix of the visited list by one |
| Crawler.ScanOnTopic | src/WikiCrawler.java:263-271 | expanding a page keeps every collected page but the seed a valid `/wiki/` page about the topics |
| Crawler.CoversKept | src/WikiCrawler.java:259-275 | expanding another page keeps an edge list covering its own page's links |
| Crawler.CoversNew | src/WikiCrawler.java:242-283 | the edge list a fetched page gets holds only its links from the first `<p>` line on, and every other such link is an edge or turned away for good |
| Crawler.WikiCrawler.CollectedGraph | src/WikiCrawler.java:83-85 | the graph is the web graph on the collected pages: each edge list, duplicate-free, holds exactly the links of its page, from the first `<p>` line on, that lead to another collected page |
| Crawler.WikiCrawler.Init | src/WikiCrawler.java:71-74 | a new crawler has empty visited set, list, queue and graph |
| Crawler.WikiCrawler.Create | src/WikiCrawler.java:54-80 | empty keywords, `max <= 0`, an unreadable robots.txt, a seed that is not a valid `/wiki/` page and an off-topic seed each fail, in that order; otherwise the crawler keeps the trimmed seed, the lower-cased keywords and the robots.txt exclusions |
| Crawler.WikiCrawler.IsAboutTopics | src/WikiCrawler.java:293-339 | true exactly when the raw text can be fetched and every keyword is a substring of some single lower-cased line |
| Crawler.WikiCrawler.ConsiderLink | src/WikiCrawler.java:259-275 | one extracted link updates the frontier and the edge list as the admission rule says |
| Crawler.WikiCrawler.ConsiderPiece | src/WikiCrawler.java:249-258 | one `href=` piece goes through the admission rule only when its link is well formed |
| Crawler.WikiCrawler.ExtractLine | src/WikiCrawler.java:247-276 | one line's links go through the admission rule in order |
| Crawler.WikiCrawler.ExtractFrom | src/WikiCrawler.java:246-278 | the lines from the first `<p>` on go through the admission rule in order |
| Crawler.WikiCrawler.ExtractLinks | src/WikiCrawler.java:218-284 | a fetched page gets the edge list of its links and the frontier grows as the rule says; an unfetchable page changes nothing; a page with no `<p>` line fails; the crawler invariant is kept |
| Crawler.WikiCrawler.Crawl | src/WikiCrawler.java:83-106 | the crawl terminates with an empty queue, the seed first in the visited list and at most `max` pages; every collected page but the seed is a valid `/wiki/` page whose text mentions every keyword; every edge list holds exactly the links of its page that lead to another collected page; it writes the file of `outputGraph`, or fails on a page with no `<p>` line or a visited page whose fetch failed |
| Crawler.WikiCrawler.VisitSeed | src/WikiCrawler.java:93-95 | the seed alone is visited and queued, and the invariant holds |
| Crawler.WikiCrawler.ExpandAll | src/WikiCrawler.java:96-102 | the loop ends with an empty queue and every visited page expanded or unfetchable, or at the first fetched page without a `<p>` line; the invariant is kept |
| Crawler.WikiCrawler.ExpandNext | src/WikiCrawler.java:96-102 | one turn of the loop keeps the invariant and the cap, only appends to the visited list, and either admits vertices or shortens the queue |
| Crawler.WikiCrawler.OutputGraph | src/WikiCrawler.java:346-362 | the file is `max` and then one `s1 s2` line per edge, sources in visiting order and each source's list in order, every edge counted; it fails exactly at the first visited page without an edge list |
| Crawler.WikiCrawler.WriteEdges | src/WikiCrawler.java:353-356 | one line per edge of one source, each counted |
| GraphFile.EdgeLinesConcat | src/WikiCrawler.java:353-356 | the lines of two runs of edges are the lines of each, concatenated |
| GraphFile.FileLinesSnoc | src/WikiCrawler.java:350-357 | writing more edges appends their lines to the file |
| GraphFile.EdgesInOrderStep | src/WikiCrawler.java:351-357 | the next source in the visited list contributes its list after the earlier sources |
| GraphFile.FirstMalformed | src/PageRank.java:218-222 | every edge line before the first malformed one splits into at least two pieces, and that one does not |
| GraphFile.ParsedPrefixSnoc | src/PageRank.java:218-237 | reading one more well-formed line extends the edges read by its edge |
| GraphFile.MalformedAt | src/PageRank.java:218-222 | the loop stops with an error at the first malformed line |
| GraphFile.AllWellFormed | src/PageRank.java:218-237 | when every line is read, the edges read are the file's edges in order |
| GraphFile.ParseEdgeLines | src/PageRank.java:220 | every line the writer emits parses back to its edge, provided no name holds a space and no target is empty |
| GraphFile.ParseEdgeLineOfSpacedTarget | src/PageRank.java:220-222 | the line written for a target `v w` that holds a space reads back as the edge to `v` alone |
| GraphFile.ParseEdgesOfLines | src/PageRank.java:218-237 | the writer's edge lines hold no malformed line and parse back to the same edges, provided no name holds a space and no target is empty |
| GraphFile.ParseFileLines | src/PageRank.java:215-237 | the lines the writer emits, taken as the lines read, parse to the declared count and the same edges in the same order, provided no name holds a space and no target is empty |
| GraphFile.ScannerLinesOfWritten | src/PageRank.java:214-220 | the lines a `Scanner` reads from the text `println` wrote are the written lines, when none holds a line break |
| GraphFile.ScannerSplitsAtSeparator | src/PageRank.java:214-220 | a written line holding `\u2028` is read back as two lines |
| GraphFile.ParseFileText | src/PageRank.java:212-237 | reading back the written text line by line gives the declared count and the same edges in the same order, provided no name holds a space or a line break and no target is empty |
| GraphFile.SeparatorEdgeLines | src/WikiCrawler.java:350-354 | the file for one edge to `a\u2028b` reads back as the count, `u a` and `b` |
| GraphFile.SeparatorEdgeFails | src/PageRank.java:218-222 | that file fails to load at its second edge line, which splits into one piece |
| Adjacency.Append | src/PageRank.java:223-236 | adding to a list makes its key present and adds no other key |
| Adjacency.ReadOneMore | src/PageRank.java:219-236 | one more edge line appends to `graphOut[u]` and `graphIn[v]` and adds both endpoints to the vertex set |
| Adjacency.OutListsAreTargets | src/PageRank.java:223-229 | `graphOut[u]` exists exactly when u has an out-edge, and lists u's targets in file order |
| Adjacency.InListsAreSources | src/PageRank.java:230-236 | `graphIn[v]` exists exactly when v has an in-edge, and lists v's sources in file order |
| Adjacency.EndpointsAreKeys | src/PageRank.java:221-236 | the vertex set is exactly the keys of the two maps |
| Adjacency.ListsNameVertices | src/PageRank.java:221-236 | every list only names vertices |
| Adjacency.DegreeSumAppend | src/PageRank.java:223-236 | adding one list entry adds one to the degree sum over the vertices |
| Adjacency.DegreeSumsCountEdges | src/PageRank.java:218-237 | over all vertices the out-list lengths and the in-list lengths each add up to the number of edges |
| Adjacency.TargetsOfConcat | src/WikiCrawler.java:351-357 | a source's targets in a concatenation are its targets in each part |
| Adjacency.TargetsOfEdgesFrom | src/WikiCrawler.java:353-355 | the edges written for one source have exactly that source's list as targets |
| Adjacency.TargetsOfEdgesInOrder | src/WikiCrawler.java:351-357 | in the written file, the edges leaving a visited page are exactly its list |
| Adjacency.EdgesInOrderMember | src/WikiCrawler.java:351-357 | every written edge comes from a visited page's list |
| Adjacency.ReadBackCrawl | src/PageRank.java:212-237 | when no crawled name holds a space and no list holds an empty name (`Writable`), the crawler's lines parse to the count `max` and the edges in writing order; when moreover no name holds a line break (`LineSafe`), so does the text a `Scanner` reads back; `graphOut[s]` is then the crawled list of every source with a non-empty list |
| Adjacency.SpacedTargetReadBackCut | src/PageRank.java:215-222 | without `Writable` the round trip fails: a crawled target `a b` is read back as `a`, a page that was never crawled |
| Adjacency.SeparatorTargetReadBackFails | src/PageRank.java:214-222 | without `LineSafe` the round trip fails: a `Writable` target `a\u2028b` makes loading the written file fail with `MalformedEdge(2)` |
| Seqs.DistinctCardinality | src/PageRank.java:436 | a duplicate-free sequence has as many elements as its set |
| Seqs.IndexedDistinct | src/PageRank.java:243-249 | an exact index is duplicate-free and its keys are exactly the indexed entries |
| Seqs.IndexedSnoc | src/PageRank.java:246-248 | giving a new key the next slot keeps the index exact |
| RankMath.SumAddAt | src/PageRank.java:286 | adding to one entry adds to the total |
| RankMath.SumAddToAll | src/PageRank.java:279-281 | adding to every entry adds n times as much to the total |
| RankMath.SumSpreadTo | src/PageRank.java:284-287 | adding along the out-edges adds once per edge to the total |
| RankMath.DanglingShareSum | src/PageRank.java:277-281 | a page without out-edges passes on exactly β times its rank |
| RankMath.LinkShareSum | src/PageRank.java:282-287 | a page with out-edges passes on exactly β times its rank |
| RankMath.SumShare | src/PageRank.java:277-288 | every page passes on exactly β times its rank |
| RankMath.SumStepFrom | src/PageRank.java:266-289 | the vertex loop adds β times the mass of the pages done |
| RankMath.SumUniform | src/PageRank.java:263-265 | n equal entries add up to n times the entry |
| RankMath.TeleportMass | src/PageRank.java:261-265 | the starting entries `(1-β)/n` add up to 1-β |
| RankMath.StepSum | src/PageRank.java:260-289 | one step maps mass m to (1-β) + β·m, so mass 1 stays 1 |
| RankMath.UniformSum | src/PageRank.java:307-311 | the start vector `1/n` has mass 1 |
| RankMath.SpreadToAtLeast | src/PageRank.java:284-287 | adding a non-negative value along edges keeps a lower bound |
| RankMath.StepFromAtLeast | src/PageRank.java:266-289 | the vertex loop over a non-negative vector keeps a lower bound |
| RankMath.StepAtLeastTeleport | src/PageRank.java:260-289 | from a non-negative vector, every entry after a step is at least `(1-β)/n` |
| RankMath.EntriesWithinSum | src/PageRank.java:70-73 | in a non-negative vector no entry exceeds the total |
| RankMath.TeleportPositive | src/PageRank.java:262 | the teleport share is positive |
| RankMath.IterateMass | src/PageRank.java:305-323 | every iterate is a probability vector, and after one step every page holds at least its teleport share |
| RankMath.L1NonNegative | src/PageRank.java:332-338 | the norm difference is never negative |
| RankMath.L1Symmetric | src/PageRank.java:332-338 | the norm difference does not depend on the order of the vectors |
| RankMath.L1ZeroIffEqual | src/PageRank.java:332-338 | the norm difference is 0 exactly between equal vectors |
| Selection.CompareTo | src/PageRank.java:195-203 | 0, 1 or -1 exactly as the first value is equal to, above or below the second |
| Selection.CompareToContract | src/PageRank.java:195-203 | the comparison is antisymmetric and transitive |
| Selection.Insert | src/PageRank.java:171 | insertion adds exactly the new pair |
| Selection.SortPairs | src/PageRank.java:171 | the sort is a permutation |
| Selection.InsertBeforeAll | src/PageRank.java:171 | insertion keeps a lower bound on the run |
| Selection.InsertSorted | src/PageRank.java:171 | inserting a pair after its equals keeps the run strictly sorted by value and index |
| Selection.SortPairsStable | src/PageRank.java:171 | pairs in index order come out sorted by value, equal values in index order: the sort is stable |
| Selection.SortedPairMember | src/PageRank.java:168-171 | every sorted pair is the pair of a vertex and its metric |
| Selection.SortPairsOf | src/PageRank.java:167-171 | the sorted pairs hold every vertex once, in (value, index) order |
| Selection.UnpickedBehind | src/PageRank.java:172-174 | a vertex not picked is behind every pick |
| Selection.PickedInOrder | src/PageRank.java:172-174 | of two picks, the earlier one is ahead |
| Selection.LastOfSortedSelect | src/PageRank.java:172-174 | the last k sorted pairs, read from the end, are a top selection |
| Selection.TopIndicesSelect | src/PageRank.java:165-176 | `topK` picks k valid vertices, each ahead of the later picks and of every vertex not picked |
| Selection.TopSelectionOrder | src/PageRank.java:165-176 | the picks are distinct, with non-increasing metric, and equal metrics come out higher index first |
| Similarity.Jaccard | src/PageRank.java:422-454 | the similarity lies in [0, 1] |
| Similarity.CommonWithinAll | src/PageRank.java:446-453 | there are no more common pages than pages in all |
| Similarity.JaccardSymmetric | src/PageRank.java:422-454 | the similarity is symmetric |
| Similarity.JaccardOne | src/PageRank.java:422-454 | the similarity is 1 exactly for equal sets |
| Similarity.JaccardZero | src/PageRank.java:422-454 | the similarity is 0 exactly for disjoint sets |
| Ranking.LoadParses | src/PageRank.java:212-251 | a file loads when it parses and passes the two vertex-array checks; otherwise it fails with the parser's error, a negative count, or too many vertices |
| Ranking.StillMovingNext | src/PageRank.java:312-320 | one more step that moved more than ε extends the run of non-converged steps |
| Ranking.IterateNext | src/PageRank.java:314-315 | the next vector is the next iterate, and its norm difference is how far that step moved |
| Ranking.Successors | src/PageRank.java:271-274 | a vertex has one successor per out-edge, and none without a list |
| Ranking.IndexGraphWellFormed | src/PageRank.java:284-286 | every successor index is a vertex index |
| Ranking.PageRank.RankedMass | src/PageRank.java:305-323 | the converged rank vector is non-negative, sums to 1, and gives every page at least `(1-β)/n` |
| Ranking.PageRank.Init | src/PageRank.java:55-59 | a new ranker has empty maps, index and vertex array |
| Ranking.PageRank.ReadGraph | src/PageRank.java:212-251 | reading fails as the load does, or returns the declared count with the maps, edge count and index agreeing with the edges of the file |
| Ranking.PageRank.IndexAll | src/PageRank.java:239-250 | a negative count or more vertices than declared fails; otherwise the declared count is kept and the index is exact |
| Ranking.PageRank.ReadEdges | src/PageRank.java:218-237 | the edge loop fails at the first malformed line, or reads every edge in order into both maps |
| Ranking.PageRank.ReadEdgeLine | src/PageRank.java:219-236 | one line is counted, and is read as an edge exactly when it splits into two pieces |
| Ranking.PageRank.IndexVertices | src/PageRank.java:243-249 | the vertices fill the slots with an exact index, and more vertices than slots fail |
| Ranking.PageRank.ReadEdge | src/PageRank.java:223-236 | `v` is appended to `graphOut[u]` and `u` to `graphIn[v]` |
| Ranking.PageRank.Open | src/PageRank.java:54-62 | the ranker fails as the load does; fails on null slots when fewer vertices than declared exist; fails to converge only when, for the vertex numbering used, every step up to `maxSteps` moved by more than ε, so it succeeds whenever no numbering diverges; on success it holds the converged rank vector of the file's graph |
| Ranking.PageRank.Finish | src/PageRank.java:60-61 | null slots fail; otherwise the rank vector converges, or the walk moved by more than ε at every step up to `maxSteps` |
| Ranking.PageRank.PageRankOf | src/PageRank.java:70-73 | a vertex's entry of the rank vector, in `[(1-β)/n, 1]`; none exactly for an identifier that is not a vertex |
| Ranking.PageRank.OutDegreeOf | src/PageRank.java:81-89 | the number of edges of the file leaving the page, 0 when there is none |
| Ranking.PageRank.InDegreeOf | src/PageRank.java:97-105 | the number of edges of the file entering the page, 0 when there is none |
| Ranking.PageRank.NumEdges | src/PageRank.java:110-112 | the number of edge lines read |
| Ranking.PageRank.DegreesAddUp | src/PageRank.java:218-237 | the out-list lengths and the in-list lengths over all vertices each add up to `numEdges()` |
| Ranking.PageRank.ComputeRank | src/PageRank.java:305-323 | the rank vector is the iterate after the first step that moved by at most ε, with that step count |
| Ranking.PageRank.TopPagesSelect | src/PageRank.java:165-176 | `topK` returns k distinct vertices, best first, each ahead of the later ones and of every vertex left out |
| Ranking.PageRank.TopK | src/PageRank.java:165-176 | a negative k and a k above the vertex count fail; otherwise the pages of the top k indices |
| Ranking.PageRank.ReadFromEnd | src/PageRank.java:172-174 | slot j gets the vertex of the j-th sorted pair from the end, and the loop fails when pairs run out |
| Ranking.PageRank.TopKPageRank | src/PageRank.java:121-124 | the top k pages by rank |
| Ranking.PageRank.TopKInDegree | src/PageRank.java:133-140 | the top k pages by in-degree |
| Ranking.PageRank.TopKOutDegree | src/PageRank.java:149-156 | the top k pages by out-degree |
| Ranking.PowerIteration | src/PageRank.java:307-320 | the loop stops at the first step that moved by at most ε, holding that iterate |
| Ranking.SimulateOneStep | src/PageRank.java:260-298 | the next rank vector is one step of the walk from `pN` |
| Ranking.WalkVertices | src/PageRank.java:266-289 | the vertex loop adds every vertex's share in array order |
| Ranking.ShareOf | src/PageRank.java:268-288 | a vertex passes on β·p split among its out-edges, or over all pages when it has none |
| Ranking.SpreadAlong | src/PageRank.java:284-287 | `value` is added at the index of every target, once per edge |
| Ranking.Filled | src/PageRank.java:261-265 | every entry of the new vector is the default value |
| Ranking.AddToAllInPlace | src/PageRank.java:279-281 | `value` is added to every entry |
| Ranking.ComputeNormDifference | src/PageRank.java:332-338 | the result is the L1 distance over the entries of `pN` |
| Ranking.PairsArray | src/PageRank.java:167-170 | pair i holds index i and the i-th metric |
| Ranking.SortInPlace | src/PageRank.java:171 | the pairs end up stably sorted by value |
| Ranking.ComputeJac | src/PageRank.java:422-454 | an empty list fails; otherwise the Jaccard similarity of the two page sets |
| Ranking.NumberAll | src/PageRank.java:425-436 | every page of either list gets its own number, from 0 up |
| Ranking.NumberPages | src/PageRank.java:427-431 | every page not yet numbered gets the next number |
| Ranking.NumberStep | src/PageRank.java:428-430 | numbering one more page keeps the numbering exact |
| Ranking.Signature | src/PageRank.java:438-445 | a signature holds 1 exactly at the numbers of the pages listed |
| Ranking.CountCommon | src/PageRank.java:446-451 | the count is the number of pages marked in both signatures |
| Ranking.CommonStep | src/PageRank.java:447-450 | one more numbered page adds one to the count exactly when it is in both lists |
| Ranking.CountsOfNumbering | src/PageRank.java:437-453 | over a numbering of all the pages, the counts are the sizes of the intersection and the union |

## Left out

- Network access is a fixed map from absolute address to lines. A missing address is an `IOException`. `MalformedURLException` cannot arise for these addresses and is not modelled.
- `requestsCount`, the five-second pauses and every console message are left out. They are timing and output only.
- Crawler.WikiCrawler.Create: when robots.txt cannot be fetched, the source sleeps and retries forever. The model fails with `RobotsUnavailable` instead.
- `outputDisallowedSites`, `outputTopKResult`, the two `output` helpers and the `topKRanks`/`topKInDegrees`/`topKOutDegrees` fields they read are reporting only.
- Files are sequences of lines, not files:
  - `Crawl` returns the lines it would write.
  - `ReadGraph` and `Open` take the lines of the file.
  - Between the two, `GraphFile.WrittenText` is the text `println` writes, each line followed by `\n`, and `GraphFile.ScannerLines` is the lines a `Scanner` reads back from it. Only the round-trip lemmas go through this text. A `\r\n` line separator is not modelled on the writing side.
  - The file-name fields, `Scanner`/`PrintWriter` as objects and `FileNotFoundException` are left out.
- Null references are left out:
  - Dafny sequences cannot be null, so a null keyword array or null page list is not modelled.
  - A missing edge list or a missing page is a `Failure` value.
- Ranking.PageRank.PageRankOf: for an identifier that is not a vertex, the source throws a `NullPointerException`. The model answers `None`.
- `double` is `real`. Rounding, infinities and NaN are not modelled.
- The zero-vertex graph does not model the division `1.0 / 0`. Its quotient fills no entry.
- Ranking.PageRank.ComputeRank: the source loops until convergence, possibly forever. The model bounds the loop by `maxSteps`. It reports `NotConverged`, and proves every step up to the bound moved by more than ε.
- Ranking.PageRank.Open: the null slots of `verticesArray` are not stored. The array holds only filled slots, and the `NullPointerException` of the first step is reported before the walk starts.
- The iteration order of a `HashSet` is unspecified. The model picks elements in an arbitrary order, and every contract holds for any order. This covers the vertex numbering in `readGraph` and the keyword loop in `isAboutTopics`.
- `Arrays.sort` is modelled by what it guarantees: a stable sort by value. Here that is the stable insertion sort `SortPairs`, written back in one parallel assignment; TimSort's own steps are not modelled.
- Ranking.SimulateOneStep, Ranking.PowerIteration: these take the values of the fields they read as parameters. The step counter is a local variable, stored in `numberOfSteps` once the loop ends.
- The debug loop of `simulateOneStep` that sums `pN` only prints, and is left out.
- The mismatch warning of `readGraph` only prints, and is left out.
- `numOfEdges`, the indices and the counters are unbounded integers. 32-bit overflow is not modelled.
- JavaText.ParseInt: accepts ASCII decimal digits only. `Integer.parseInt` also accepts the other Unicode decimal digits, through `Character.digit`. The sign and the 32-bit range are modelled.
- Crawler.WikiCrawler.Crawl: the on-topic property covers every collected page except the seed. The constructor tests the seed as given, before trimming, and the crawler keeps the trimmed seed.
- Ranking.PageRank.Open: whether the walk converges is stated for the vertex numbering `readGraph` happens to choose, since the model leaves the set's iteration order open.
- `toLowerCase` is modelled for ASCII letters only.
- Adjacency.ReadBackCrawl: the round trip holds only when no crawled name holds a space. The crawler keeps a quoted link value whole, spaces included, and `/wiki/A B` passes its page tests; the line `s1 + " " + s2` it writes for such a target (src/WikiCrawler.java:354) is split on every space when read back (src/PageRank.java:220), so the edge read ends at the first space and names a page that was never crawled. `Adjacency.SpacedTargetReadBackCut` and `WebPages.SpacedLinkPasses` state this behaviour of the source; the crawl's own contracts do not exclude it. It also needs names free of line breaks: `Scanner.nextLine` (src/PageRank.java:215, 220) ends a line at `\n`, `\r`, `\u2028`, `\u2029` and `\u0085`, while the crawler reads pages with `BufferedReader.readLine`, which ends lines only at `\n` and `\r`, and `trim` and the page tests let the other three through. A name holding one of them is written as one line and read back as two, and loading then fails (`Adjacency.SeparatorTargetReadBackFails`).
- `split` is modelled for literal separators (`href=` and a space). Neither holds a regular-expression metacharacter.
