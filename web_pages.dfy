/**
 * What the crawler reads from the wiki, and the pure decisions it takes on each piece of
 * text: the addresses it fetches, which page identifiers are valid, which robots.txt
 * lines name an excluded page, which links a line of HTML carries, and whether a page's
 * raw text mentions every keyword.
 */
module WebPages {
  import opened Wrappers
  import opened JavaText

  /**
   * The web as one fixed snapshot: every absolute address that can be fetched maps to the
   * lines it serves. An address missing from the map is a fetch that fails (an IOException).
   */
  type Web = map<string, seq<string>>

  const BASE_URL: string := "https://en.wikipedia.org"
  const WIKI_PREFIX: string := "/wiki/"
  const ROBOTS_ADDRESS: string := BASE_URL + "/robots.txt"
  const DISALLOW_MARKER: string := "Disallow: /wiki/"
  const PARAGRAPH_MARKER: string := "<p>"
  const HREF_MARKER: string := "href="

  /** `absoluteAddress(url)`: the address of a page's rendered HTML. */
  function AbsoluteAddress(url: string): string
  {
    BASE_URL + url
  }

  /**
   * `textPageAddress(url)`: the address of a page's raw wiki text. The title is the
   * identifier without its first six characters; every caller passes a `/wiki/` path.
   */
  function TextPageAddress(url: string): string
    requires StartsWith(url, WIKI_PREFIX)
  {
    BASE_URL + "/w/index.php?title=" + url[6..] + "&action=raw"
  }

  /** Two `/wiki/` pages share a raw-text address exactly when they are the same page. */
  lemma TextPageAddressInjective(a: string, b: string)
    requires StartsWith(a, WIKI_PREFIX) && StartsWith(b, WIKI_PREFIX)
    ensures TextPageAddress(a) == TextPageAddress(b) <==> a == b
  {
    var head := BASE_URL + "/w/index.php?title=";
    var tail := "&action=raw";
    if TextPageAddress(a) == TextPageAddress(b) {
      var ta, tb := TextPageAddress(a), TextPageAddress(b);
      assert ta == head + a[6..] + tail;
      assert tb == head + b[6..] + tail;
      assert |a| == |b|;
      assert a[6..] == ta[|head|..|ta| - |tail|];
      assert b[6..] == tb[|head|..|tb| - |tail|];
      assert a == a[..6] + a[6..];
      assert b == b[..6] + b[6..];
    }
  }

  /** Trimming a `/wiki/` path keeps it a `/wiki/` path: the prefix holds no blank. */
  lemma TrimKeepsWikiPrefix(s: string)
    requires StartsWith(s, WIKI_PREFIX)
    ensures StartsWith(Trim(s), WIKI_PREFIX)
  {
    TrimKeepsPrefix(s, WIKI_PREFIX);
  }

  predicate IsForbiddenChar(c: char)
  {
    c == '#' || c == ':'
  }

  /** The scan of `isValidPage`: the first position at or after `from` holding '#' or ':', or the length. */
  function FirstForbidden(url: string, from: nat): (r: nat)
    requires from <= |url|
    ensures from <= r <= |url|
    ensures forall j :: from <= j < r ==> !IsForbiddenChar(url[j])
    ensures r < |url| ==> IsForbiddenChar(url[r])
    decreases |url| - from
  {
    if from == |url| || IsForbiddenChar(url[from]) then from else FirstForbidden(url, from + 1)
  }

  /**
   * `isValidPage(url)`: a page is valid when it holds no '#' (a section link) and no ':'
   * (a namespace such as File: or Help:) and robots.txt does not exclude it.
   */
  function IsValidPage(url: string, disallowed: set<string>): (r: bool)
    ensures r <==> ('#' !in url && ':' !in url && url !in disallowed)
  {
    FirstForbidden(url, 0) == |url| && url !in disallowed
  }

  /** A robots.txt line that excludes a wiki page. */
  predicate IsDisallowLine(line: string)
  {
    Contains(line, DISALLOW_MARKER)
  }

  /** A disallow line holds "/wiki/", ten characters into its marker. */
  lemma DisallowLineHasWikiPath(line: string)
    requires IsDisallowLine(line)
    ensures Contains(line, WIKI_PREFIX)
  {
    var i :| 0 <= i <= |line| && OccursAt(line, DISALLOW_MARKER, i);
    assert line[i + 10..i + 16] == WIKI_PREFIX by {
      assert line[i..i + 16][10..16] == DISALLOW_MARKER[10..16];
    }
    assert OccursAt(line, WIKI_PREFIX, i + 10);
  }

  /** The excluded page a disallow line names: from the first "/wiki/" on, trimmed. */
  function DisallowEntry(line: string): (r: string)
    requires IsDisallowLine(line)
    ensures StartsWith(r, WIKI_PREFIX)
  {
    DisallowLineHasWikiPath(line);
    var index := IndexOf(line, WIKI_PREFIX);
    assert line[index..][..6] == line[index..index + 6];
    TrimKeepsWikiPrefix(line[index..]);
    Trim(line[index..])
  }

  /** The excluded pages of a robots.txt file: one entry per disallow line. */
  function DisallowedSites(lines: seq<string>): set<string>
  {
    set i | 0 <= i < |lines| && IsDisallowLine(lines[i]) :: DisallowEntry(lines[i])
  }

  /** One more robots.txt line adds its entry when it is a disallow line. */
  lemma DisallowedSitesSnoc(lines: seq<string>, line: string)
    ensures DisallowedSites(lines + [line])
         == DisallowedSites(lines) + (if IsDisallowLine(line) then {DisallowEntry(line)} else {})
  {
    var all := lines + [line];
    forall i | 0 <= i < |lines| ensures all[i] == lines[i] { }
    assert all[|lines|] == line;
  }

  /**
   * The link in one piece of a line split on "href=": the text after the first double
   * quote up to the next double quote, where the search for the closing quote starts two
   * characters after the opening quote (so an empty value `""` is not recognised). A piece
   * without such a closing quote is malformed: the source's substring call throws and the
   * piece is skipped.
   */
  function SegmentLink(segment: string): Option<string>
  {
    var start := IndexOfChar(segment, '"', 0) + 1;
    var end := IndexOfChar(segment, '"', start + 1);
    if end < 0 then None else Some(Trim(segment[start..end]))
  }

  /** A quoted, non-empty attribute value yields that value, trimmed. */
  lemma SegmentLinkOfQuoted(pre: string, value: string, rest: string)
    requires '"' !in pre && '"' !in value && |value| > 0
    ensures SegmentLink(pre + ['"'] + value + ['"'] + rest) == Some(Trim(value))
  {
    var s := pre + ['"'] + value + ['"'] + rest;
    assert s[|pre|] == '"';
    forall j | 0 <= j < |pre| ensures s[j] != '"' {
      assert s[j] == pre[j];
    }
    assert IndexOfChar(s, '"', 0) == |pre|;
    var close := |pre| + 1 + |value|;
    assert s[close] == '"';
    forall j | |pre| + 2 <= j < close ensures s[j] != '"' {
      assert s[j] == value[j - |pre| - 1];
    }
    assert IndexOfChar(s, '"', |pre| + 2) == close;
    assert s[|pre| + 1..close] == value;
  }

  /** An empty attribute value `""` followed by no other quote is skipped as malformed. */
  lemma SegmentLinkOfEmptyValue(pre: string, rest: string)
    requires '"' !in pre && '"' !in rest
    ensures SegmentLink(pre + ['"', '"'] + rest) == None
  {
    var s := pre + ['"', '"'] + rest;
    assert s[|pre|] == '"';
    forall j | 0 <= j < |pre| ensures s[j] != '"' {
      assert s[j] == pre[j];
    }
    assert IndexOfChar(s, '"', 0) == |pre|;
    forall j | |pre| + 2 <= j < |s| ensures s[j] != '"' {
      assert s[j] == rest[j - |pre| - 2];
    }
  }

  /** A piece with a single double quote is skipped as malformed. */
  lemma SegmentLinkOfUnterminated(pre: string, rest: string)
    requires '"' !in pre && '"' !in rest
    ensures SegmentLink(pre + ['"'] + rest) == None
  {
    var s := pre + ['"'] + rest;
    assert s[|pre|] == '"';
    forall j | 0 <= j < |pre| ensures s[j] != '"' {
      assert s[j] == pre[j];
    }
    forall j | |pre| + 1 <= j < |s| ensures s[j] != '"' {
      assert s[j] == rest[j - |pre| - 1];
    }
  }

  /** A quoted value with nothing to trim at its ends is extracted whole, inner spaces included. */
  lemma QuotedValueWhole(value: string)
    requires '"' !in value && |value| > 0
    requires !IsTrimmed(value[0]) && !IsTrimmed(value[|value| - 1])
    ensures PieceLinks(['"'] + value + ['"']) == [value]
  {
    var piece := ['"'] + value + ['"'];
    assert [] + ['"'] + value + ['"'] + [] == piece;
    SegmentLinkOfQuoted([], value, []);
    TrimIdentity(value);
    assert SegmentLink(piece) == Some(value);
  }

  /**
   * The crawler's tests let a name with a space through: the piece `"/wiki/A B"` yields
   * `/wiki/A B`, a valid `/wiki/` page.
   */
  lemma SpacedLinkPasses()
    ensures "/wiki/A B"[7] == ' '
    ensures PieceLinks(['"'] + "/wiki/A B" + ['"']) == ["/wiki/A B"]
    ensures StartsWith("/wiki/A B", WIKI_PREFIX) && IsValidPage("/wiki/A B", {})
  {
    var name := "/wiki/A B";
    assert name == ['/', 'w', 'i', 'k', 'i', '/', 'A', ' ', 'B'];
    assert '#' !in name && ':' !in name && '"' !in name;
    QuotedValueWhole(name);
  }

  /** The link one piece contributes: its address if well formed, else nothing. */
  function PieceLinks(segment: string): (r: seq<string>)
    ensures |r| <= 1
  {
    if SegmentLink(segment).Some? then [SegmentLink(segment).value] else []
  }

  /** The links of a run of pieces, malformed pieces skipped, in order. */
  function SegmentsLinks(segments: seq<string>): seq<string>
  {
    if segments == [] then []
    else SegmentsLinks(segments[..|segments| - 1]) + PieceLinks(segments[|segments| - 1])
  }

  /** One more piece adds its link, if it has one, at the end. */
  lemma SegmentsLinksSnoc(segments: seq<string>, segment: string)
    ensures SegmentsLinks(segments + [segment]) == SegmentsLinks(segments) + PieceLinks(segment)
  {
    assert (segments + [segment])[..|segments|] == segments;
  }

  lemma SegmentsLinksStep(pieces: seq<string>, j: nat)
    requires j < |pieces|
    ensures SegmentsLinks(pieces[..j + 1]) == SegmentsLinks(pieces[..j]) + PieceLinks(pieces[j])
  {
    assert pieces[..j + 1] == pieces[..j] + [pieces[j]];
    SegmentsLinksSnoc(pieces[..j], pieces[j]);
  }

  /** The links of one line: every piece after the first of the line split on "href=". */
  function LineLinks(line: string): seq<string>
  {
    var pieces := Split(line, HREF_MARKER);
    if |pieces| == 0 then [] else SegmentsLinks(pieces[1..])
  }

  /** The links of a line are those of its "href=" pieces after the first. */
  lemma LineLinksPieces(line: string)
    ensures |Split(line, HREF_MARKER)| == 0 ==> LineLinks(line) == []
    ensures |Split(line, HREF_MARKER)| > 0 ==> LineLinks(line) == SegmentsLinks(Split(line, HREF_MARKER)[1..])
  {
  }

  /** The links of a run of lines, in order. */
  function LinesLinks(lines: seq<string>): seq<string>
  {
    if lines == [] then [] else LinesLinks(lines[..|lines| - 1]) + LineLinks(lines[|lines| - 1])
  }

  /** One more line adds its links at the end. */
  lemma LinesLinksSnoc(lines: seq<string>, line: string)
    ensures LinesLinks(lines + [line]) == LinesLinks(lines) + LineLinks(line)
  {
    assert (lines + [line])[..|lines|] == lines;
  }

  lemma LinesLinksStep(lines: seq<string>, i: nat)
    requires i < |lines|
    ensures LinesLinks(lines[..i + 1]) == LinesLinks(lines[..i]) + LineLinks(lines[i])
  {
    assert lines[..i + 1] == lines[..i] + [lines[i]];
    LinesLinksSnoc(lines[..i], lines[i]);
  }

  /** The first line holding "<p>", where link extraction begins; None when there is none. */
  function ParagraphStart(lines: seq<string>, from: nat): (r: Option<nat>)
    requires from <= |lines|
    ensures r.None? <==> forall j :: from <= j < |lines| ==> !Contains(lines[j], PARAGRAPH_MARKER)
    ensures r.Some? ==> from <= r.value < |lines| && Contains(lines[r.value], PARAGRAPH_MARKER)
    ensures r.Some? ==> forall j :: from <= j < r.value ==> !Contains(lines[j], PARAGRAPH_MARKER)
    decreases |lines| - from
  {
    if from == |lines| then None
    else if Contains(lines[from], PARAGRAPH_MARKER) then Some(from)
    else ParagraphStart(lines, from + 1)
  }

  /** The links of a page: those of every line from the first "<p>" line on. */
  function PageLinks(lines: seq<string>): seq<string>
    requires ParagraphStart(lines, 0).Some?
  {
    LinesLinks(lines[ParagraphStart(lines, 0).value..])
  }

  /** Some line among the first `n`, lower-cased, contains `keyword`. */
  predicate MentionedBefore(lines: seq<string>, keyword: string, n: nat)
    requires n <= |lines|
  {
    n > 0 && (MentionedBefore(lines, keyword, n - 1) || Contains(ToLower(lines[n - 1]), keyword))
  }

  /** A mention among the first `n` lines is a mention among any longer prefix. */
  lemma {:induction false} MentionedLater(lines: seq<string>, keyword: string, n: nat, m: nat)
    requires n <= m <= |lines|
    requires MentionedBefore(lines, keyword, n)
    ensures MentionedBefore(lines, keyword, m)
    decreases m - n
  {
    if n < m {
      MentionedLater(lines, keyword, n + 1, m);
    }
  }

  /** The recursive definition holds exactly when some line among the first `n` mentions `keyword`. */
  lemma {:induction false} MentionedBeforeWitness(lines: seq<string>, keyword: string, n: nat)
    requires n <= |lines|
    ensures MentionedBefore(lines, keyword, n) <==> exists j :: 0 <= j < n && Contains(ToLower(lines[j]), keyword)
  {
    if n > 0 {
      MentionedBeforeWitness(lines, keyword, n - 1);
    }
  }

  /**
   * A page is about the topics when its raw text can be fetched and every (lower-cased)
   * keyword is a substring of some single lower-cased line of it.
   */
  predicate AboutTopics(keywords: set<string>, web: Web, url: string)
    requires StartsWith(url, WIKI_PREFIX)
  {
    var address := TextPageAddress(url);
    address in web && forall k :: k in keywords ==> MentionedBefore(web[address], k, |web[address]|)
  }
}
