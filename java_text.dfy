/**
 * The few operations of java.lang.String and java.lang.Integer that the crawler and the
 * graph loader rely on, with the exact edge cases of the Java library: `contains`,
 * `indexOf`, `startsWith`, `toLowerCase` (ASCII letters only), `trim`, `split` on a
 * literal separator (trailing empty pieces dropped) and `Integer.parseInt` /
 * `Integer.toString` for non-negative values.
 */
module JavaText {
  import opened Wrappers

  /** `sub` occurs in `s` starting at position `i`. */
  predicate OccursAt(s: string, sub: string, i: nat)
  {
    i + |sub| <= |s| && s[i..i + |sub|] == sub
  }

  /** `s.contains(sub)` */
  predicate Contains(s: string, sub: string)
  {
    exists i :: 0 <= i <= |s| && OccursAt(s, sub, i)
  }

  /** `s.startsWith(prefix)` */
  predicate StartsWith(s: string, prefix: string)
  {
    |prefix| <= |s| && s[..|prefix|] == prefix
  }

  /** `s.indexOf(sub, from)`: the first occurrence at or after `from`, or -1. */
  function IndexOfFrom(s: string, sub: string, from: nat): (r: int)
    ensures r == -1 || (from <= r <= |s| && OccursAt(s, sub, r))
    ensures r == -1 ==> forall j :: from <= j <= |s| ==> !OccursAt(s, sub, j)
    ensures r != -1 ==> forall j :: from <= j < r ==> !OccursAt(s, sub, j)
    decreases |s| + 1 - from
  {
    if from > |s| then -1
    else if OccursAt(s, sub, from) then from
    else IndexOfFrom(s, sub, from + 1)
  }

  /** `s.indexOf(sub)` */
  function IndexOf(s: string, sub: string): (r: int)
    ensures r == -1 <==> !Contains(s, sub)
    ensures r != -1 ==> 0 <= r <= |s| && OccursAt(s, sub, r)
    ensures r != -1 ==> forall j :: 0 <= j < r ==> !OccursAt(s, sub, j)
  {
    IndexOfFrom(s, sub, 0)
  }

  /** `s.indexOf(c, from)` for a non-negative `from`: -1 when `from` is past the end. */
  function IndexOfChar(s: string, c: char, from: nat): (r: int)
    ensures r == -1 <==> forall j :: from <= j < |s| ==> s[j] != c
    ensures r != -1 ==> from <= r < |s| && s[r] == c
    ensures r != -1 ==> forall j :: from <= j < r ==> s[j] != c
    decreases |s| - from
  {
    if from >= |s| then -1
    else if s[from] == c then from
    else IndexOfChar(s, c, from + 1)
  }

  /** `Character.toLowerCase` restricted to ASCII letters. */
  function LowerChar(c: char): char
  {
    if 'A' <= c <= 'Z' then (c as int + 32) as char else c
  }

  /** `s.toLowerCase()` */
  function ToLower(s: string): (r: string)
    ensures |r| == |s|
  {
    seq(|s|, i requires 0 <= i < |s| => LowerChar(s[i]))
  }

  /** A character that `String.trim` removes: every code point up to and including the space. */
  predicate IsTrimmed(c: char)
  {
    c <= ' '
  }

  function TrimStart(s: string): (r: string)
    ensures |r| <= |s| && r == s[|s| - |r|..]
    ensures |r| > 0 ==> !IsTrimmed(r[0])
    ensures forall j :: 0 <= j < |s| - |r| ==> IsTrimmed(s[j])
  {
    if |s| > 0 && IsTrimmed(s[0]) then TrimStart(s[1..]) else s
  }

  function TrimEnd(s: string): (r: string)
    ensures |r| <= |s| && r == s[..|r|]
    ensures |r| > 0 ==> !IsTrimmed(r[|r| - 1])
    ensures forall j :: |r| <= j < |s| ==> IsTrimmed(s[j])
  {
    if |s| > 0 && IsTrimmed(s[|s| - 1]) then TrimEnd(s[..|s| - 1]) else s
  }

  /** `s.trim()`: drops leading and trailing characters up to the space. */
  function Trim(s: string): (r: string)
    ensures |r| > 0 ==> !IsTrimmed(r[0]) && !IsTrimmed(r[|r| - 1])
    ensures |r| <= |s|
  {
    TrimEnd(TrimStart(s))
  }

  /**
   * What `trim()` keeps: the window of `s` left once every character up to the space is
   * removed from both ends.
   */
  lemma TrimIsWindow(s: string)
    ensures TrimWindow(s, Trim(s), |s| - |TrimStart(s)|)
  {
    var t := TrimStart(s);
    var r := TrimEnd(t);
    assert Trim(s) == r;
    WindowOfParts(s, t, r);
  }

  /** A prefix `r` of a suffix `t` of `s` is a window of `s`, bounded by what was cut off. */
  lemma WindowOfParts(s: string, t: string, r: string)
    requires |t| <= |s| && t == s[|s| - |t|..]
    requires |r| <= |t| && r == t[..|r|]
    requires forall j :: 0 <= j < |s| - |t| ==> IsTrimmed(s[j])
    requires forall j :: |r| <= j < |t| ==> IsTrimmed(t[j])
    ensures TrimWindow(s, r, |s| - |t|)
  {
    var a := |s| - |t|;
    forall j | a + |r| <= j < |s| ensures IsTrimmed(s[j]) {
      assert s[j] == t[j - a];
    }
  }

  /** `r` sits at position `a` of `s`, with only trimmed characters before and after it. */
  predicate TrimWindow(s: string, r: string, a: int)
  {
    && 0 <= a && a + |r| <= |s|
    && r == s[a..a + |r|]
    && (forall j :: 0 <= j < a ==> IsTrimmed(s[j]))
    && (forall j :: a + |r| <= j < |s| ==> IsTrimmed(s[j]))
  }

  /** Trimming keeps a prefix made of characters that are not trimmed. */
  lemma TrimKeepsPrefix(s: string, prefix: string)
    requires StartsWith(s, prefix)
    requires forall j :: 0 <= j < |prefix| ==> !IsTrimmed(prefix[j])
    ensures StartsWith(Trim(s), prefix)
  {
    if |prefix| > 0 {
      assert TrimStart(s) == s;
      var r := TrimEnd(s);
      assert s[|prefix| - 1] == prefix[|prefix| - 1];
      assert r[..|prefix|] == s[..|prefix|];
    }
  }

  /** A string with nothing to trim at either end is its own trim. */
  lemma TrimIdentity(s: string)
    requires |s| > 0 ==> !IsTrimmed(s[0]) && !IsTrimmed(s[|s| - 1])
    ensures Trim(s) == s
  {
  }

  /** The pieces of `s` between non-overlapping occurrences of `sep`, from left to right. */
  function SplitAll(s: string, sep: string): (r: seq<string>)
    requires |sep| > 0
    ensures |r| >= 1
    decreases |s|
  {
    var i := IndexOf(s, sep);
    if i < 0 then [s] else [s[..i]] + SplitAll(s[i + |sep|..], sep)
  }

  function DropTrailingEmpty(parts: seq<string>): (r: seq<string>)
    ensures |r| <= |parts| && r == parts[..|r|]
    ensures |r| > 0 ==> r[|r| - 1] != ""
    ensures forall j :: |r| <= j < |parts| ==> parts[j] == ""
  {
    if |parts| > 0 && parts[|parts| - 1] == "" then DropTrailingEmpty(parts[..|parts| - 1]) else parts
  }

  /**
   * `s.split(sep)` for a separator without regular-expression metacharacters: when the
   * separator does not occur the result is `[s]`, otherwise the pieces with every
   * trailing empty piece removed.
   */
  function Split(s: string, sep: string): seq<string>
    requires |sep| > 0
  {
    if IndexOf(s, sep) < 0 then [s] else DropTrailingEmpty(SplitAll(s, sep))
  }

  /**
   * What `split` returns: the whole string when the separator does not occur; otherwise
   * the pieces between occurrences, up to the last non-empty one, every piece dropped
   * after it being empty.
   */
  lemma SplitPieces(s: string, sep: string)
    requires |sep| > 0
    ensures !Contains(s, sep) ==> Split(s, sep) == [s]
    ensures Contains(s, sep) ==> |Split(s, sep)| <= |SplitAll(s, sep)| && Split(s, sep) == SplitAll(s, sep)[..|Split(s, sep)|]
    ensures Contains(s, sep) && |Split(s, sep)| > 0 ==> Split(s, sep)[|Split(s, sep)| - 1] != ""
    ensures Contains(s, sep) ==> forall j :: |Split(s, sep)| <= j < |SplitAll(s, sep)| ==> SplitAll(s, sep)[j] == ""
  {
  }

  /** The first space of `u + " " + rest`, when `u` holds none, is right after `u`. */
  lemma SplitAtFirstSpace(u: string, rest: string)
    requires ' ' !in u
    ensures IndexOf(u + " " + rest, " ") == |u|
    ensures SplitAll(u + " " + rest, " ") == [u] + SplitAll(rest, " ")
  {
    var s := u + " " + rest;
    assert OccursAt(s, " ", |u|);
    forall j | 0 <= j < |u| ensures !OccursAt(s, " ", j) {
      assert s[j] == u[j];
      assert s[j..j + 1] == [u[j]];
    }
    assert s[..|u|] == u;
    assert s[|u| + 1..] == rest;
  }

  /** Dropping trailing empty pieces keeps every piece up to a non-empty one. */
  lemma {:induction false} DropTrailingKeeps(parts: seq<string>, k: nat)
    requires k < |parts| && parts[k] != ""
    ensures k < |DropTrailingEmpty(parts)|
    decreases |parts|
  {
    if parts[|parts| - 1] == "" {
      DropTrailingKeeps(parts[..|parts| - 1], k);
    }
  }

  /** The pieces of `u + " " + v + " " + w` split at every space begin with `u` and `v`. */
  lemma SplitAllTwoSpaces(u: string, v: string, w: string)
    requires ' ' !in u && ' ' !in v
    ensures IndexOf(u + " " + v + " " + w, " ") == |u|
    ensures |SplitAll(u + " " + v + " " + w, " ")| >= 2
    ensures SplitAll(u + " " + v + " " + w, " ")[0] == u && SplitAll(u + " " + v + " " + w, " ")[1] == v
  {
    var t := v + " " + w;
    assert u + " " + v + " " + w == u + " " + t;
    SplitAtFirstSpace(u, t);
    SplitAtFirstSpace(v, w);
  }

  /**
   * Splitting on a space cuts at every space: when `v` holds a space, the second piece of
   * `u + " " + v` is only the part of `v` before it.
   */
  lemma SplitCutsAtSpace(u: string, v: string, w: string)
    requires ' ' !in u && ' ' !in v && |v| > 0
    ensures |Split(u + " " + v + " " + w, " ")| >= 2
    ensures Split(u + " " + v + " " + w, " ")[..2] == [u, v]
  {
    var s := u + " " + v + " " + w;
    SplitAllTwoSpaces(u, v, w);
    var parts := SplitAll(s, " ");
    DropTrailingKeeps(parts, 1);
    var r := DropTrailingEmpty(parts);
    assert r[..2] == parts[..2] == [u, v];
  }

  /** Splitting `u + " " + v` on a space, when neither part holds a space and `v` is not empty, gives back the two parts. */
  lemma SplitPair(u: string, v: string)
    requires ' ' !in u && ' ' !in v && |v| > 0
    ensures Split(u + " " + v, " ") == [u, v]
  {
    var s := u + " " + v;
    assert OccursAt(s, " ", |u|);
    forall j | 0 <= j < |u| ensures !OccursAt(s, " ", j) {
      assert s[j] == u[j];
      assert s[j..j + 1] == [u[j]];
    }
    assert IndexOf(s, " ") == |u|;
    assert s[..|u|] == u;
    assert s[|u| + 1..] == v;
    forall j | 0 <= j <= |v| ensures !OccursAt(v, " ", j) {
      if j < |v| {
        assert v[j] in v;
        assert v[j..j + 1] == [v[j]];
      }
    }
    assert SplitAll(v, " ") == [v];
    assert SplitAll(s, " ") == [u, v];
  }

  /** The value of a decimal digit. */
  function DigitValue(c: char): nat
  {
    if '0' <= c <= '9' then c as int - '0' as int else 0
  }

  predicate IsDigit(c: char)
  {
    '0' <= c <= '9'
  }

  function DigitChar(d: nat): (c: char)
    requires d < 10
    ensures IsDigit(c) && DigitValue(c) == d
  {
    ('0' as int + d) as char
  }

  /** The value of a string of decimal digits. */
  function DecimalValue(digits: string): nat
  {
    if |digits| == 0 then 0
    else DecimalValue(digits[..|digits| - 1]) * 10 + DigitValue(digits[|digits| - 1])
  }

  const INT_MIN: int := -0x8000_0000
  const INT_MAX: int := 0x7FFF_FFFF

  /**
   * `Integer.parseInt(s)`: an optional sign followed by at least one decimal digit, whose
   * value fits in 32 bits; anything else is a NumberFormatException (None).
   */
  function ParseInt(s: string): (r: Option<int>)
    ensures r.Some? ==> INT_MIN <= r.value <= INT_MAX
  {
    if |s| == 0 then None
    else
      var negative := s[0] == '-';
      var digits := if s[0] == '-' || s[0] == '+' then s[1..] else s;
      if |digits| == 0 || exists j :: 0 <= j < |digits| && !IsDigit(digits[j]) then None
      else
        var value: int := if negative then -(DecimalValue(digits) as int) else DecimalValue(digits);
        if INT_MIN <= value <= INT_MAX then Some(value) else None
  }

  /** `Integer.toString(n)` for a non-negative `n`. */
  function NatToString(n: nat): (s: string)
    ensures |s| > 0
    ensures forall j :: 0 <= j < |s| ==> IsDigit(s[j])
    ensures DecimalValue(s) == n
  {
    if n < 10 then [DigitChar(n)] else NatToString(n / 10) + [DigitChar(n % 10)]
  }

  /** Printing an int and parsing it back gives the same int. */
  lemma ParseIntOfToString(n: nat)
    requires n <= INT_MAX
    ensures ParseInt(NatToString(n)) == Some(n)
    ensures Trim(NatToString(n)) == NatToString(n)
  {
    var s := NatToString(n);
    assert IsDigit(s[0]) && IsDigit(s[|s| - 1]);
  }
}
