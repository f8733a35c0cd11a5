/**
 * The edge-list file shared by the crawler (writer) and the ranker (reader): a first line
 * with the declared vertex count, then one line `u v` per directed edge.
 */
module GraphFile {
  import opened Wrappers
  import opened JavaText

  /** A directed edge (source, target). */
  type Edge = (string, string)

  /** Why loading a graph file fails: the exceptions the source lets escape. */
  datatype LoadError =
    | EmptyFile                       // Scanner.nextLine on an empty file
    | BadVertexCount                  // Integer.parseInt on the first line
    | MalformedEdge(lineNumber: nat)  // fewer than two pieces when an edge line is split on a space
    | NegativeVertexCount             // new String[n] with n < 0
    | TooManyVertices(declared: int, discovered: nat)  // more distinct endpoints than declared slots
    | NullVertex                      // fewer endpoints than declared: an empty slot is dereferenced
    | NotConverged                    // the power iteration did not settle within the step bound

  /** `s1 + " " + s2` */
  function EdgeLine(e: Edge): string
  {
    e.0 + " " + e.1
  }

  function EdgeLines(edges: seq<Edge>): (r: seq<string>)
    ensures |r| == |edges|
  {
    seq(|edges|, i requires 0 <= i < |edges| => EdgeLine(edges[i]))
  }

  /** The whole file: the declared count on the first line, then the edges. */
  function FileLines(declared: nat, edges: seq<Edge>): seq<string>
  {
    [NatToString(declared)] + EdgeLines(edges)
  }

  /** The edges leaving `u` in the order of `targets`. */
  function EdgesFrom(u: string, targets: seq<string>): (r: seq<Edge>)
    ensures |r| == |targets|
  {
    seq(|targets|, i requires 0 <= i < |targets| => (u, targets[i]))
  }

  /** The edges of an adjacency map in writing order: sources in the order given, then each source's list in order. */
  function EdgesInOrder(order: seq<string>, adjacency: map<string, seq<string>>): seq<Edge>
    requires forall u :: u in order ==> u in adjacency
  {
    if order == [] then []
    else
      var u := order[|order| - 1];
      EdgesInOrder(order[..|order| - 1], adjacency) + EdgesFrom(u, adjacency[u])
  }

  lemma EdgeLinesConcat(a: seq<Edge>, b: seq<Edge>)
    ensures EdgeLines(a + b) == EdgeLines(a) + EdgeLines(b)
  {
  }

  /** Writing more edges appends their lines to the file. */
  lemma FileLinesSnoc(declared: nat, written: seq<Edge>, more: seq<Edge>)
    ensures FileLines(declared, written + more) == FileLines(declared, written) + EdgeLines(more)
  {
    EdgeLinesConcat(written, more);
  }

  lemma EdgesInOrderStep(order: seq<string>, adjacency: map<string, seq<string>>, k: nat)
    requires k < |order| && forall i :: 0 <= i <= k ==> order[i] in adjacency
    ensures forall u :: u in order[..k + 1] ==> u in adjacency
    ensures EdgesInOrder(order[..k + 1], adjacency)
         == EdgesInOrder(order[..k], adjacency) + EdgesFrom(order[k], adjacency[order[k]])
  {
    assert order[..k + 1][..k] == order[..k];
  }

  /** An edge line `links[0] links[1] ...` split on a space; fewer than two pieces is malformed. */
  function ParseEdgeLine(line: string): Option<Edge>
  {
    var links := Split(line, " ");
    if |links| < 2 then None else Some((links[0], links[1]))
  }

  /** The first malformed edge line at or after `from`, or the number of lines. */
  function FirstMalformed(lines: seq<string>, from: nat): (r: nat)
    requires from <= |lines|
    ensures from <= r <= |lines|
    ensures forall j :: from <= j < r ==> ParseEdgeLine(lines[j]).Some?
    ensures r < |lines| ==> ParseEdgeLine(lines[r]).None?
    decreases |lines| - from
  {
    if from == |lines| || ParseEdgeLine(lines[from]).None? then from else FirstMalformed(lines, from + 1)
  }

  /** The edges of well-formed edge lines, in file order. */
  function ParseEdges(lines: seq<string>): (r: seq<Edge>)
    requires forall j :: 0 <= j < |lines| ==> ParseEdgeLine(lines[j]).Some?
    ensures |r| == |lines|
  {
    seq(|lines|, i requires 0 <= i < |lines| => ParseEdgeLine(lines[i]).value)
  }

  /** The first |edges| lines parse, in order, to `edges`. */
  ghost predicate ParsedPrefix(lines: seq<string>, edges: seq<Edge>)
  {
    |edges| <= |lines| && forall j :: 0 <= j < |edges| ==> ParseEdgeLine(lines[j]) == Some(edges[j])
  }

  lemma ParsedPrefixSnoc(lines: seq<string>, edges: seq<Edge>, e: Edge)
    requires ParsedPrefix(lines, edges) && |edges| < |lines| && ParseEdgeLine(lines[|edges|]) == Some(e)
    ensures ParsedPrefix(lines, edges + [e])
  {
  }

  /** Edge lines read one by one up to the first that does not split into two pieces. */
  lemma MalformedAt(lines: seq<string>, edges: seq<Edge>)
    requires ParsedPrefix(lines, edges) && |edges| < |lines| && ParseEdgeLine(lines[|edges|]).None?
    ensures FirstMalformed(lines, 0) == |edges|
  {
  }

  /** Edge lines all read: they parse to the edges collected. */
  lemma AllWellFormed(lines: seq<string>, edges: seq<Edge>)
    requires ParsedPrefix(lines, edges) && |edges| == |lines|
    ensures FirstMalformed(lines, 0) == |lines|
    ensures ParseEdges(lines) == edges
  {
  }

  /** What a file declares and holds. */
  datatype Parsed = Parsed(declared: int, edges: seq<Edge>)

  /**
   * `readGraph`'s reading loop: the trimmed first line as an int, then every further line
   * as an edge. Line numbers in errors count the first line as 0.
   */
  function ParseFile(lines: seq<string>): Result<Parsed, LoadError>
  {
    if |lines| == 0 then Failure(EmptyFile)
    else
      match ParseInt(Trim(lines[0]))
      case None => Failure(BadVertexCount)
      case Some(declared) =>
        var bad := FirstMalformed(lines[1..], 0);
        if bad < |lines| - 1 then Failure(MalformedEdge(bad + 1))
        else Success(Parsed(declared, ParseEdges(lines[1..])))
  }

  /** Every line the writer emits parses back to its edge. */
  lemma ParseEdgeLines(edges: seq<Edge>)
    requires forall e :: e in edges ==> ' ' !in e.0 && ' ' !in e.1 && |e.1| > 0
    ensures forall j :: 0 <= j < |edges| ==> ParseEdgeLine(EdgeLines(edges)[j]) == Some(edges[j])
  {
    forall j | 0 <= j < |edges| ensures ParseEdgeLine(EdgeLines(edges)[j]) == Some(edges[j]) {
      assert edges[j] in edges;
      SplitPair(edges[j].0, edges[j].1);
    }
  }

  /**
   * A target holding a space does not survive the format: the line `u v w` written for the
   * edge `(u, v + " " + w)` reads back as the edge `(u, v)`.
   */
  lemma ParseEdgeLineOfSpacedTarget(u: string, v: string, w: string)
    requires ' ' !in u && ' ' !in v && |v| > 0
    ensures EdgeLine((u, v + " " + w)) == u + " " + v + " " + w
    ensures ParseEdgeLine(EdgeLine((u, v + " " + w))) == Some((u, v))
  {
    SplitCutsAtSpace(u, v, w);
    var links := Split(u + " " + v + " " + w, " ");
    assert links[0] == links[..2][0] && links[1] == links[..2][1];
  }

  /** The edge lines the writer emits hold no malformed line and parse back to the same edges. */
  lemma ParseEdgesOfLines(edges: seq<Edge>)
    requires forall e :: e in edges ==> ' ' !in e.0 && ' ' !in e.1 && |e.1| > 0
    ensures FirstMalformed(EdgeLines(edges), 0) == |edges|
    ensures ParseEdges(EdgeLines(edges)) == edges
  {
    ParseEdgeLines(edges);
  }

  /**
   * The format round-trips: reading back what the writer emits gives the declared count
   * and the same edges in the same order, provided identifiers hold no space and no
   * target is empty.
   */
  lemma ParseFileLines(declared: nat, edges: seq<Edge>)
    requires declared <= INT_MAX
    requires forall e :: e in edges ==> ' ' !in e.0 && ' ' !in e.1 && |e.1| > 0
    ensures ParseFile(FileLines(declared, edges)) == Success(Parsed(declared, edges))
  {
    ParseIntOfToString(declared);
    assert FileLines(declared, edges)[1..] == EdgeLines(edges);
    ParseEdgesOfLines(edges);
  }

  /**
   * The characters at which `Scanner.nextLine` ends a line: `\n`, `\r` (a `\r\n` pair
   * counts as one break), and the Unicode line and paragraph separators and next-line.
   */
  predicate IsLineBreak(c: char)
  {
    c == '\n' || c == '\r' || c == '\U{2028}' || c == '\U{2029}' || c == '\U{0085}'
  }

  predicate NoLineBreak(s: string)
  {
    forall j :: 0 <= j < |s| ==> !IsLineBreak(s[j])
  }

  /** The text `println` writes for a run of lines: each line followed by `\n`. */
  function WrittenText(lines: seq<string>): string
  {
    if lines == [] then [] else lines[0] + "\n" + WrittenText(lines[1..])
  }

  /** The first line break at or after `from`, or the length of the text. */
  function NextBreak(text: string, from: nat): (r: nat)
    requires from <= |text|
    ensures from <= r <= |text|
    ensures forall j :: from <= j < r ==> !IsLineBreak(text[j])
    ensures r < |text| ==> IsLineBreak(text[r])
    decreases |text| - from
  {
    if from == |text| || IsLineBreak(text[from]) then from else NextBreak(text, from + 1)
  }

  /**
   * The lines a `Scanner` returns from `nextLine` while `hasNextLine` holds: the text cut
   * at every line break, a last line without a break included, nothing after a final break.
   */
  function ScannerLines(text: string): seq<string>
    decreases |text|
  {
    if text == [] then []
    else
      var i := NextBreak(text, 0);
      if i == |text| then [text]
      else
        var width := if text[i] == '\r' && i + 1 < |text| && text[i + 1] == '\n' then 2 else 1;
        [text[..i]] + ScannerLines(text[i + width..])
  }

  /** A line without breaks, written and followed by more text, is read back whole first. */
  lemma ScannerLinesFirst(line: string, rest: string)
    requires NoLineBreak(line)
    ensures ScannerLines(line + "\n" + rest) == [line] + ScannerLines(rest)
  {
    var text := line + "\n" + rest;
    assert text[|line|] == '\n';
    forall j | 0 <= j < |line| ensures !IsLineBreak(text[j]) {
      assert text[j] == line[j];
    }
    assert NextBreak(text, 0) == |line|;
    assert text[..|line|] == line;
    assert text[|line| + 1..] == rest;
  }

  /** The written text of a non-empty run of lines, followed by more text. */
  lemma WrittenTextCons(lines: seq<string>, rest: string)
    requires lines != []
    ensures WrittenText(lines) + rest == lines[0] + "\n" + (WrittenText(lines[1..]) + rest)
  {
  }

  /** Lines without breaks, written and followed by more text, are read back in order first. */
  lemma {:induction false} ScannerLinesAfter(lines: seq<string>, rest: string)
    requires forall k :: 0 <= k < |lines| ==> NoLineBreak(lines[k])
    ensures ScannerLines(WrittenText(lines) + rest) == lines + ScannerLines(rest)
    decreases |lines|
  {
    if lines == [] {
      assert WrittenText(lines) + rest == rest;
    } else {
      var text := WrittenText(lines[1..]) + rest;
      WrittenTextCons(lines, rest);
      ScannerLinesFirst(lines[0], text);
      ScannerLinesAfter(lines[1..], rest);
      ConsAppend(lines, ScannerLines(rest));
    }
  }

  /** Putting the head back in front of the tail and more. */
  lemma ConsAppend(xs: seq<string>, ys: seq<string>)
    requires xs != []
    ensures [xs[0]] + (xs[1..] + ys) == xs + ys
  {
    assert xs == [xs[0]] + xs[1..];
  }

  /** Writing lines without breaks and reading the text back gives the same lines. */
  lemma ScannerLinesOfWritten(lines: seq<string>)
    requires forall k :: 0 <= k < |lines| ==> NoLineBreak(lines[k])
    ensures ScannerLines(WrittenText(lines)) == lines
  {
    ScannerLinesAfter(lines, []);
    assert WrittenText(lines) + [] == WrittenText(lines);
  }

  /**
   * A line separator inside a written line splits it in two on reading: `println(x + "\u2028" + y)`
   * reads back as the lines `x` and `y`.
   */
  lemma ScannerSplitsAtSeparator(x: string, y: string)
    requires NoLineBreak(x) && NoLineBreak(y)
    ensures ScannerLines(WrittenText([x + "\U{2028}" + y])) == [x, y]
  {
    var text := WrittenText([x + "\U{2028}" + y]);
    assert text == x + "\U{2028}" + y + "\n";
    assert text[|x|] == '\U{2028}';
    forall j | 0 <= j < |x| ensures !IsLineBreak(text[j]) {
      assert text[j] == x[j];
    }
    assert NextBreak(text, 0) == |x|;
    assert text[..|x|] == x;
    assert text[|x| + 1..] == WrittenText([y]);
    ScannerLinesOfWritten([y]);
  }

  /**
   * The file round-trips through its text: reading back, line by line as a `Scanner` does,
   * the text the writer prints gives the declared count and the same edges in the same
   * order, provided identifiers hold no space and no line break and no target is empty.
   */
  lemma ParseFileText(declared: nat, edges: seq<Edge>)
    requires declared <= INT_MAX
    requires forall e :: e in edges ==> ' ' !in e.0 && ' ' !in e.1 && |e.1| > 0
    requires forall e :: e in edges ==> NoLineBreak(e.0) && NoLineBreak(e.1)
    ensures ParseFile(ScannerLines(WrittenText(FileLines(declared, edges)))) == Success(Parsed(declared, edges))
  {
    var lines := FileLines(declared, edges);
    forall k | 0 <= k < |lines| ensures NoLineBreak(lines[k]) {
      if k > 0 {
        var e := edges[k - 1];
        assert e in edges;
        var line := EdgeLine(e);
        assert lines[k] == line;
        forall j | 0 <= j < |line| ensures !IsLineBreak(line[j]) {
          if j < |e.0| {
            assert line[j] == e.0[j];
          } else if j > |e.0| {
            assert line[j] == e.1[j - |e.0| - 1];
          }
        }
      }
    }
    ScannerLinesOfWritten(lines);
    ParseFileLines(declared, edges);
  }

  /** The file holding one edge to `a\u2028b` reads back as three lines: the count, `u a` and `b`. */
  lemma SeparatorEdgeLines(declared: nat, u: string, a: string, b: string)
    requires NoLineBreak(u) && NoLineBreak(a) && NoLineBreak(b)
    ensures ScannerLines(WrittenText(FileLines(declared, [(u, a + "\U{2028}" + b)])))
         == [NatToString(declared), u + " " + a, b]
  {
    var count := NatToString(declared);
    var first := u + " " + a;
    forall j | 0 <= j < |first| ensures !IsLineBreak(first[j]) {
      if j < |u| {
        assert first[j] == u[j];
      } else if j > |u| {
        assert first[j] == a[j - |u| - 1];
      }
    }
    var line := first + "\U{2028}" + b;
    assert EdgeLine((u, a + "\U{2028}" + b)) == line;
    assert FileLines(declared, [(u, a + "\U{2028}" + b)]) == [count, line];
    assert WrittenText([count, line]) == WrittenText([count]) + WrittenText([line]);
    ScannerLinesAfter([count], WrittenText([line]));
    ScannerSplitsAtSeparator(first, b);
  }

  /** Those three lines fail to load at the second edge line, which holds no space. */
  lemma SeparatorEdgeFails(declared: nat, u: string, a: string, b: string)
    requires declared <= INT_MAX
    requires ' ' !in u && ' ' !in a && ' ' !in b && |a| > 0
    requires NoLineBreak(u) && NoLineBreak(a) && NoLineBreak(b)
    ensures ParseFile(ScannerLines(WrittenText(FileLines(declared, [(u, a + "\U{2028}" + b)]))))
         == Failure(MalformedEdge(2))
  {
    SeparatorEdgeLines(declared, u, a, b);
    var lines := [NatToString(declared), u + " " + a, b];
    ParseIntOfToString(declared);
    SplitPair(u, a);
    assert Split(b, " ") == [b] by {
      forall j | 0 <= j <= |b| ensures !OccursAt(b, " ", j) {
        if j < |b| {
          assert b[j] in b;
          assert b[j..j + 1] == [b[j]];
        }
      }
    }
    assert ParseEdgeLine(lines[1]) == Some((u, a));
    assert ParseEdgeLine(lines[2]).None?;
    assert FirstMalformed(lines[1..], 1) == 1;
    assert FirstMalformed(lines[1..], 0) == 1;
  }
}
