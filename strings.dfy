/** Character classes and string helpers shared by the parsers. */
module Strings {

  import opened Base

  /** The Unicode `White_Space` property, used both by `str::trim` and by the `\s` class of the
      regular expressions. */
  predicate IsWhitespace(c: char)
  {
    ('\t' <= c <= '\r') || c == ' ' || c == '\U{0085}' || c == '\U{00A0}' || c == '\U{1680}' ||
    ('\U{2000}' <= c <= '\U{200A}') || c == '\U{2028}' || c == '\U{2029}' ||
    c == '\U{202F}' || c == '\U{205F}' || c == '\U{3000}'
  }

  predicate AllWhitespace(s: string)
  {
    forall k :: 0 <= k < |s| ==> IsWhitespace(s[k])
  }

  /** Removes leading whitespace. */
  function TrimStart(s: string): string
  {
    if s != [] && IsWhitespace(s[0]) then TrimStart(s[1..]) else s
  }

  /** Removes trailing whitespace. */
  function TrimEnd(s: string): string
  {
    if s != [] && IsWhitespace(s[|s| - 1]) then TrimEnd(s[..|s| - 1]) else s
  }

  /** `TrimStart` drops a whitespace prefix, and exactly the longest one. */
  lemma {:induction false} TrimStartSpec(s: string)
    ensures var r := TrimStart(s);
            |r| <= |s| && r == s[|s| - |r|..] && AllWhitespace(s[..|s| - |r|]) &&
            (r == [] || !IsWhitespace(r[0]))
    decreases |s|
  {
    if s != [] && IsWhitespace(s[0]) {
      TrimStartSpec(s[1..]);
      var r := TrimStart(s[1..]);
      assert s[..|s| - |r|] == [s[0]] + s[1..][..|s[1..]| - |r|];
    }
  }

  /** `TrimEnd` drops a whitespace suffix, and exactly the longest one. */
  lemma {:induction false} TrimEndSpec(s: string)
    ensures var r := TrimEnd(s);
            |r| <= |s| && r == s[..|r|] && AllWhitespace(s[|r|..]) &&
            (r == [] || !IsWhitespace(r[|r| - 1]))
    decreases |s|
  {
    if s != [] && IsWhitespace(s[|s| - 1]) {
      var s' := s[..|s| - 1];
      TrimEndSpec(s');
      var r := TrimEnd(s');
      assert s[|r|..] == s'[|r|..] + [s[|s| - 1]];
    }
  }

  /** `str::trim`: both leading and trailing whitespace removed. */
  function Trim(s: string): string
  {
    TrimEnd(TrimStart(s))
  }

  /** `Trim(s)` is the infix of `s` between a whitespace prefix and a whitespace suffix, and
      neither of its ends is whitespace. */
  lemma TrimSpec(s: string)
    ensures var r := Trim(s);
            (r == [] || (!IsWhitespace(r[0]) && !IsWhitespace(r[|r| - 1]))) &&
            exists lo :: 0 <= lo <= |s| - |r| && r == s[lo..lo + |r|] &&
                         AllWhitespace(s[..lo]) && AllWhitespace(s[lo + |r|..])
  {
    var t := TrimStart(s);
    TrimStartSpec(s);
    TrimEndSpec(t);
    var r := TrimEnd(t);
    var lo := |s| - |t|;
    assert r == s[lo..lo + |r|] && s[lo + |r|..] == t[|r|..];
  }

  /** Trimming is idempotent: a trimmed string is its own trim. */
  lemma TrimIdempotent(s: string)
    ensures Trim(Trim(s)) == Trim(s)
  {
    TrimSpec(s);
    var r := Trim(s);
    assert TrimStart(r) == r;
    assert TrimEnd(r) == r;
  }

  /** Every character of `s[lo..hi]` equals `d`. */
  predicate Repeats(s: string, d: char, lo: int, hi: int)
    requires 0 <= lo <= hi <= |s|
  {
    forall k :: lo <= k < hi ==> s[k] == d
  }

  /** `s` holds `w` copies of `d` starting at index `j`. */
  predicate RepeatsAt(s: string, d: char, w: nat, j: int)
  {
    0 <= j && j + w <= |s| && Repeats(s, d, j, j + w)
  }

  /** Computes `RepeatsAt` one character at a time. */
  function RunAt(s: string, d: char, w: nat, j: nat): (r: bool)
    decreases w
    ensures r <==> RepeatsAt(s, d, w, j)
  {
    if w == 0 then j <= |s| else j < |s| && s[j] == d && RunAt(s, d, w - 1, j + 1)
  }

  /** `s[lo..hi]` holds no line feed, so the regex atom `.` matches each of its characters. */
  predicate NoNewline(s: string, lo: int, hi: int)
    requires 0 <= lo <= hi <= |s|
  {
    forall k :: lo <= k < hi ==> s[k] != '\n'
  }

  /** The first index of `c` in `s`. */
  function IndexOf(s: string, c: char): (r: Option<nat>)
    ensures r.Some? ==> r.value < |s| && s[r.value] == c && c !in s[..r.value]
    ensures r.None? <==> c !in s
  {
    if s == [] then None
    else if s[0] == c then Some(0)
    else match IndexOf(s[1..], c)
      case None => None
      case Some(i) => assert s[..i + 1] == [s[0]] + s[1..][..i]; Some(i + 1)
  }

  /** Joins non-empty `parts` with `c` between neighbours. */
  function Join(parts: seq<string>, c: char): string
    requires |parts| >= 1
  {
    if |parts| == 1 then parts[0] else parts[0] + [c] + Join(parts[1..], c)
  }

  /** `str::split(c)`: the pieces between occurrences of `c`, one more piece than there are
      occurrences. */
  function Split(s: string, c: char): (r: seq<string>)
    decreases |s|
    ensures |r| >= 1 && Join(r, c) == s
    ensures forall k :: 0 <= k < |r| ==> c !in r[k]
    ensures |r| == 1 <==> c !in s
  {
    match IndexOf(s, c)
    case None => [s]
    case Some(i) =>
      var rest := Split(s[i + 1..], c);
      assert s == s[..i] + [c] + s[i + 1..];
      [s[..i]] + rest
  }

  /** The first piece of a split is the text before the first separator; the remaining pieces
      are the split of the text after it. */
  lemma SplitHead(s: string, c: char)
    ensures Split(s, c)[0] == (match IndexOf(s, c) case Some(i) => s[..i] case None => s)
    ensures IndexOf(s, c).Some? ==> Split(s, c)[1..] == Split(s[IndexOf(s, c).value + 1..], c)
  {
  }

  /** A non-empty string with no whitespace at either end: what `trim` leaves unchanged. */
  predicate Tight(s: string)
  {
    s != [] && !IsWhitespace(s[0]) && !IsWhitespace(s[|s| - 1])
  }

  /** `trim` leaves such a string unchanged. */
  lemma TightTrim(s: string)
    requires Tight(s)
    ensures Trim(s) == s
  {
  }
}
